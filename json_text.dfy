/**
 * The text of World::json (physics/include/world.hpp): a stringstream that receives the records
 * of the balls and of the curves, each followed by a comma, and that steps back one character
 * before each closing bracket so that the bracket overwrites the last comma. The records' own
 * texts (json.dfy gives their structure) are parameters: the formatting of numbers is left out.
 */
module JsonText {

  /** A std::stringstream: its buffer and its put position. */
  datatype Stream = Stream(buf: string, pos: nat)

  predicate Good(st: Stream) { st.pos <= |st.buf| }

  /** operator<<: the text is written from the put position on, over what was there. */
  function Put(st: Stream, t: string): (r: Stream)
    requires Good(st)
    ensures Good(r) && r.pos == st.pos + |t|
    ensures st.pos == |st.buf| ==> r.buf == st.buf + t && r.pos == |r.buf|
  {
    var rest := if st.pos + |t| < |st.buf| then st.buf[st.pos + |t|..] else "";
    Stream(st.buf[..st.pos] + t + rest, st.pos + |t|)
  }

  /** seekp(-1, ss.cur): the put position steps back one character. */
  function SeekBack(st: Stream): (r: Stream)
    requires Good(st) && st.pos >= 1
    ensures Good(r) && r.buf == st.buf && r.pos == st.pos - 1
  {
    Stream(st.buf, st.pos - 1)
  }

  /** The loop `for ... ss << x->json() << ","`: every record, each followed by a comma. */
  function PutAll(st: Stream, items: seq<string>): (r: Stream)
    requires Good(st)
    ensures Good(r) && r.pos >= st.pos
    decreases |items|
  {
    if |items| == 0 then st
    else Put(Put(PutAll(st, items[..|items| - 1]), items[|items| - 1]), ",")
  }

  /** The records, each followed by a comma. */
  function Terminated(items: seq<string>): string
  {
    if |items| == 0 then "" else Terminated(items[..|items| - 1]) + items[|items| - 1] + ","
  }

  /** The records separated by commas, as a JSON array holds them. */
  function Joined(items: seq<string>): string
  {
    if |items| == 0 then ""
    else if |items| == 1 then items[0]
    else Joined(items[..|items| - 1]) + "," + items[|items| - 1]
  }

  /** The fixed pieces of World::json: before the balls, between the lists, after the curves. */
  const BallsOpen: string := "{\"balls\":["
  const CurvesOpen: string := "],\"curves\":["
  const Close: string := "]}"

  /** World::json as written: the stream operations of world.hpp in order. */
  function WorldJsonAsWritten(balls: seq<string>, curves: seq<string>): string
  {
    var st0 := Put(Stream("", 0), BallsOpen);
    var st1 := PutAll(st0, balls);
    var st2 := Put(SeekBack(st1), CurvesOpen);
    var st3 := PutAll(st2, curves);
    Put(SeekBack(st3), Close).buf
  }

  /** The text World::json is meant to give: both lists as bracketed JSON arrays. */
  function WorldJson(balls: seq<string>, curves: seq<string>): string
  {
    BallsOpen + Joined(balls) + CurvesOpen + Joined(curves) + Close
  }

  // ---------------------------------------------------------------- the stream at its end

  /** On a stream whose put position is at its end, the loop appends the terminated records. */
  lemma {:induction false} PutAllAtEnd(st: Stream, items: seq<string>)
    requires st.pos == |st.buf|
    ensures PutAll(st, items) == Stream(st.buf + Terminated(items), |st.buf + Terminated(items)|)
    decreases |items|
  {
    if |items| > 0 {
      var n := |items| - 1;
      PutAllAtEnd(st, items[..n]);
      assert st.buf + Terminated(items) == st.buf + Terminated(items[..n]) + items[n] + ",";
    }
  }

  /** Stepping back over the last character and writing t replaces that character by t. */
  lemma OverwriteLast(buf: string, t: string)
    requires |buf| >= 1 && |t| >= 1
    ensures Put(SeekBack(Stream(buf, |buf|)), t) == Stream(buf[..|buf| - 1] + t, |buf| - 1 + |t|)
  {
  }

  /** Terminated records are the joined records and one more comma. */
  lemma {:induction false} TerminatedJoined(items: seq<string>)
    requires |items| > 0
    ensures Terminated(items) == Joined(items) + ","
    decreases |items|
  {
    if |items| > 1 {
      var n := |items| - 1;
      TerminatedJoined(items[..n]);
      assert items[..n][..n - 1] == items[..n - 1];
    } else {
      assert items[..0] == [];
    }
  }

  /**
   * What a list leaves in the buffer once the step back has been taken: the records joined by
   * commas, or, for no records, the text before the list less its last character.
   */
  function ListClosed(prefix: string, items: seq<string>): string
    requires |prefix| >= 1
  {
    if items == [] then prefix[..|prefix| - 1] else prefix + Joined(items)
  }

  /** A list written after a prefix, the step back, and the text t written over the last character. */
  lemma ListText(prefix: string, items: seq<string>, t: string)
    requires |prefix| >= 1 && |t| >= 1
    ensures var st := PutAll(Stream(prefix, |prefix|), items);
      st.pos >= 1 && Put(SeekBack(st), t) == Stream(ListClosed(prefix, items) + t, |ListClosed(prefix, items) + t|)
  {
    PutAllAtEnd(Stream(prefix, |prefix|), items);
    var buf := prefix + Terminated(items);
    OverwriteLast(buf, t);
    if items != [] {
      TerminatedJoined(items);
      assert buf == prefix + Joined(items) + ",";
      assert buf[..|buf| - 1] == prefix + Joined(items);
    }
  }

  /** World::json as written: each list closed by the step back. */
  lemma WorldJsonShape(balls: seq<string>, curves: seq<string>)
    ensures WorldJsonAsWritten(balls, curves) == ListClosed(ListClosed(BallsOpen, balls) + CurvesOpen, curves) + Close
  {
    var st0 := Put(Stream("", 0), BallsOpen);
    assert st0 == Stream(BallsOpen, |BallsOpen|);
    ListText(BallsOpen, balls, CurvesOpen);
    var p := ListClosed(BallsOpen, balls) + CurvesOpen;
    ListText(p, curves, Close);
  }

  /** Method version of World::json: the loops over the records, on a stream. */
  method WorldJsonText(balls: seq<string>, curves: seq<string>) returns (text: string)
    ensures text == WorldJsonAsWritten(balls, curves)
  {
    var st := Put(Stream("", 0), BallsOpen);
    ghost var st0 := st;
    for i := 0 to |balls|
      invariant Good(st) && st == PutAll(st0, balls[..i])
    {
      assert balls[..i + 1][..i] == balls[..i];
      st := Put(Put(st, balls[i]), ",");
    }
    assert balls[..|balls|] == balls;
    assert st.pos >= st0.pos >= 1;
    st := Put(SeekBack(st), CurvesOpen);
    ghost var st2 := st;
    for i := 0 to |curves|
      invariant Good(st) && st == PutAll(st2, curves[..i])
    {
      assert curves[..i + 1][..i] == curves[..i];
      st := Put(Put(st, curves[i]), ",");
    }
    assert curves[..|curves|] == curves;
    assert st.pos >= st2.pos >= 1;
    st := Put(SeekBack(st), Close);
    text := st.buf;
  }

  // ---------------------------------------------------------------- what the text is

  /** With a record in each list, the text is the intended one: two bracketed arrays. */
  lemma WorldJsonAgrees(balls: seq<string>, curves: seq<string>)
    requires balls != [] && curves != []
    ensures WorldJsonAsWritten(balls, curves) == WorldJson(balls, curves)
  {
    WorldJsonShape(balls, curves);
  }

  /** With no balls, the step back overwrites the opening bracket of the balls' array. */
  lemma EmptyBallsAsWritten(curves: seq<string>)
    requires curves != []
    ensures WorldJsonAsWritten([], curves) == "{\"balls\":" + CurvesOpen + Joined(curves) + Close
    ensures WorldJsonAsWritten([], curves) != WorldJson([], curves)
  {
    WorldJsonShape([], curves);
    assert BallsOpen[..|BallsOpen| - 1] == "{\"balls\":";
    LengthsDiffer(curves);
  }

  lemma LengthsDiffer(curves: seq<string>)
    ensures |"{\"balls\":" + CurvesOpen + Joined(curves) + Close| + 1 == |WorldJson([], curves)|
  {
  }

  /** The number of times c occurs in s. */
  function Count(s: string, c: char): nat
  {
    if |s| == 0 then 0 else Count(s[..|s| - 1], c) + (if s[|s| - 1] == c then 1 else 0)
  }

  lemma {:induction false} CountAppend(a: string, b: string, c: char)
    ensures Count(a + b, c) == Count(a, c) + Count(b, c)
    decreases |b|
  {
    if |b| > 0 {
      var n := |b| - 1;
      CountAppend(a, b[..n], c);
      assert (a + b)[..|a + b| - 1] == a + b[..n];
    } else {
      assert a + b == a;
    }
  }

  /** A text with as many closing as opening brackets. */
  predicate Balanced(s: string)
  {
    Count(s, '[') == Count(s, ']')
  }

  lemma {:induction false} JoinedBalanced(items: seq<string>)
    requires forall i :: 0 <= i < |items| ==> Balanced(items[i])
    ensures Balanced(Joined(items))
    decreases |items|
  {
    if |items| > 1 {
      var n := |items| - 1;
      JoinedBalanced(items[..n]);
      var j := Joined(items[..n]);
      CountAppend(j + ",", items[n], '[');
      CountAppend(j + ",", items[n], ']');
      CountAppend(j, ",", '[');
      CountAppend(j, ",", ']');
    }
  }

  /** A character that does not occur is counted zero times. */
  lemma {:induction false} CountAbsent(s: string, c: char)
    requires c !in s
    ensures Count(s, c) == 0
    decreases |s|
  {
    if |s| > 0 {
      assert forall x :: x in s[..|s| - 1] ==> x in s;
      CountAbsent(s[..|s| - 1], c);
    }
  }

  /** The text before the array of balls, less its bracket, holds no bracket. */
  lemma HeadCount()
    ensures Count("{\"balls\":", '[') == 0 && Count("{\"balls\":", ']') == 0
  {
    CountAbsent("{\"balls\":", '[');
    CountAbsent("{\"balls\":", ']');
  }

  /** The fixed pieces hold one bracket each way, in total. */
  lemma PiecesCount()
    ensures Count(BallsOpen, '[') == 1 && Count(BallsOpen, ']') == 0
    ensures Count(CurvesOpen, '[') == 1 && Count(CurvesOpen, ']') == 1
    ensures Count(Close, '[') == 0 && Count(Close, ']') == 1
    ensures Count("{\"balls\":", '[') == 0 && Count("{\"balls\":", ']') == 0
  {
    HeadCount();
    BallsOpenCount();
    CurvesOpenCount();
    CloseCount();
  }

  lemma BallsOpenCount()
    ensures Count(BallsOpen, '[') == 1 && Count(BallsOpen, ']') == 0
  {
    var head := "{\"balls\":";
    HeadCount();
    assert BallsOpen == head + "[";
    CountAppend(head, "[", '[');
    CountAppend(head, "[", ']');
  }

  lemma CurvesOpenCount()
    ensures Count(CurvesOpen, '[') == 1 && Count(CurvesOpen, ']') == 1
  {
    var names := ",\"curves\":";
    CountAbsent(names, '[');
    CountAbsent(names, ']');
    assert CurvesOpen == "]" + names + "[";
    CountAppend("]" + names, "[", '[');
    CountAppend("]" + names, "[", ']');
    CountAppend("]", names, '[');
    CountAppend("]", names, ']');
  }

  lemma CloseCount()
    ensures Count(Close, '[') == 0 && Count(Close, ']') == 1
  {
    assert Close == "]" + "}";
    CountAppend("]", "}", '[');
    CountAppend("]", "}", ']');
  }

  /** The count of a bracket over the five pieces of a world text. */
  lemma CountFive(a: string, b: string, c: string, d: string, e: string, ch: char)
    ensures Count(a + b + c + d + e, ch) == Count(a, ch) + Count(b, ch) + Count(c, ch) + Count(d, ch) + Count(e, ch)
  {
    CountAppend(a + b + c + d, e, ch);
    CountAppend(a + b + c, d, ch);
    CountAppend(a + b, c, ch);
    CountAppend(a, b, ch);
  }

  /** The intended text has balanced brackets whenever every record has. */
  lemma WorldJsonBalanced(balls: seq<string>, curves: seq<string>)
    requires forall i :: 0 <= i < |balls| ==> Balanced(balls[i])
    requires forall i :: 0 <= i < |curves| ==> Balanced(curves[i])
    ensures Balanced(WorldJson(balls, curves))
  {
    JoinedBalanced(balls);
    JoinedBalanced(curves);
    PiecesCount();
    CountFive(BallsOpen, Joined(balls), CurvesOpen, Joined(curves), Close, '[');
    CountFive(BallsOpen, Joined(balls), CurvesOpen, Joined(curves), Close, ']');
  }

  /** With no balls, the text as written has one closing bracket too many. */
  lemma EmptyBallsUnbalanced(curves: seq<string>)
    requires curves != [] && forall i :: 0 <= i < |curves| ==> Balanced(curves[i])
    ensures Count(WorldJsonAsWritten([], curves), ']') == Count(WorldJsonAsWritten([], curves), '[') + 1
  {
    EmptyBallsAsWritten(curves);
    JoinedBalanced(curves);
    PiecesCount();
    CountFive("{\"balls\":", CurvesOpen, Joined(curves), Close, "", '[');
    CountFive("{\"balls\":", CurvesOpen, Joined(curves), Close, "", ']');
    assert "{\"balls\":" + CurvesOpen + Joined(curves) + Close + "" == "{\"balls\":" + CurvesOpen + Joined(curves) + Close;
  }
}
