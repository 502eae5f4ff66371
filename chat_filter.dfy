/**
 * The chat-history filter of stdio/WechatMsgProcess.java (skipLines).
 *
 * An exported chat history alternates a line naming the sender with a line
 * holding the message, with empty lines and date lines (starting with five
 * em dashes) in between. skipLines drops the empty and date lines and, of the
 * remaining lines, writes every second one, starting with the second: the
 * message lines. Each written line is followed by one line separator.
 *
 * The input file is the sequence of lines a line reader returns (so no line
 * contains a line break); the output is the text written to the output file,
 * with the platform's line separator as a parameter.
 */
module ChatFilter {

  /** The date marker: five U+2014 EM DASH characters. */
  const DateMarker: string := "\U{2014}\U{2014}\U{2014}\U{2014}\U{2014}"

  /** An empty line or a date line; skipLines ignores it. */
  predicate Skipped(line: string)
  {
    |line| == 0 || DateMarker <= line
  }

  /** The lines that are not skipped, in order. */
  function Kept(lines: seq<string>): (r: seq<string>)
    ensures |r| <= |lines|
  {
    if lines == [] then []
    else Kept(lines[..|lines| - 1]) + (if Skipped(lines[|lines| - 1]) then [] else [lines[|lines| - 1]])
  }

  /** The elements at odd positions 1, 3, 5, ... */
  function OddPositions<T>(ks: seq<T>): (r: seq<T>)
    ensures |r| == |ks| / 2
  {
    seq(|ks| / 2, p requires 0 <= p < |ks| / 2 => ks[2 * p + 1])
  }

  /** The lines skipLines writes: the kept lines that are message lines. */
  function Written(lines: seq<string>): seq<string>
  {
    OddPositions(Kept(lines))
  }

  /** The text of written lines, each followed by the separator. */
  function Terminated(ws: seq<string>, sep: string): string
  {
    if ws == [] then [] else Terminated(ws[..|ws| - 1], sep) + ws[|ws| - 1] + sep
  }

  lemma TerminatedSnoc(ws: seq<string>, w: string, sep: string)
    ensures Terminated(ws + [w], sep) == Terminated(ws, sep) + w + sep
  {
    assert (ws + [w])[..|ws|] == ws;
  }

  /** Appending an element extends the odd positions exactly when it lands on one. */
  lemma OddPositionsSnoc<T>(ks: seq<T>, x: T)
    ensures OddPositions(ks + [x]) == OddPositions(ks) + (if |ks| % 2 == 1 then [x] else [])
  {
    var r, e := OddPositions(ks + [x]), OddPositions(ks) + (if |ks| % 2 == 1 then [x] else []);
    assert |r| == |e|;
    forall p | 0 <= p < |r| ensures r[p] == e[p] {
      if p < |ks| / 2 {
        assert r[p] == (ks + [x])[2 * p + 1] == ks[2 * p + 1];
      }
    }
  }

  /** Reading line n: it is kept unless skipped, and written when it is kept at an odd position. */
  lemma ReadStep(lines: seq<string>, n: nat)
    requires n < |lines|
    ensures Kept(lines[..n + 1]) ==
      if Skipped(lines[n]) then Kept(lines[..n]) else Kept(lines[..n]) + [lines[n]]
    ensures Written(lines[..n + 1]) ==
      if Skipped(lines[n]) || |Kept(lines[..n])| % 2 == 0 then Written(lines[..n])
      else Written(lines[..n]) + [lines[n]]
  {
    var p, x := lines[..n], lines[n];
    assert lines[..n + 1][..n] == p;
    var k := Kept(p);
    assert (k + [x])[..|k|] == k;
    OddPositionsSnoc(k, x);
  }

  /**
   * skipLines: reads the lines in order, ignores empty and date lines, and
   * writes every line read while `isUserLine` is false, flipping the flag
   * after each line that was not ignored.
   */
  method SkipLines(lines: seq<string>, sep: string) returns (out: string)
    ensures out == Terminated(Written(lines), sep)
  {
    out := [];
    var isUserLine := true;
    var n := 0;
    ghost var kept, written := [], [];
    while n < |lines|
      invariant 0 <= n <= |lines|
      invariant kept == Kept(lines[..n]) && written == Written(lines[..n])
      invariant isUserLine == (|kept| % 2 == 0)
      invariant out == Terminated(written, sep)
    {
      var line := lines[n];
      ReadStep(lines, n);
      n := n + 1;
      if Skipped(line) {
        continue;
      }
      if !isUserLine {
        TerminatedSnoc(written, line, sep);
        out := out + line + sep;
        written := written + [line];
      }
      kept := kept + [line];
      isUserLine := !isUserLine;
    }
    assert lines[..n] == lines;
  }

  // ---------------------------------------------------------------------
  // Which lines are written

  /** The positions in `lines` of the lines that are kept, in increasing order. */
  function KeptIndices(lines: seq<string>): seq<nat>
  {
    if lines == [] then []
    else KeptIndices(lines[..|lines| - 1]) + (if Skipped(lines[|lines| - 1]) then [] else [|lines| - 1])
  }

  /**
   * The kept lines are the input lines that are not skipped, in their input
   * order, each taken once.
   */
  lemma {:induction false} KeptIsFilter(lines: seq<string>)
    ensures |KeptIndices(lines)| == |Kept(lines)|
    ensures forall p :: 0 <= p < |Kept(lines)| ==>
      KeptIndices(lines)[p] < |lines| && Kept(lines)[p] == lines[KeptIndices(lines)[p]]
    ensures forall p, q :: 0 <= p < q < |KeptIndices(lines)| ==> KeptIndices(lines)[p] < KeptIndices(lines)[q]
    ensures forall j :: 0 <= j < |lines| ==> (!Skipped(lines[j]) <==> j in KeptIndices(lines))
  {
    if lines != [] {
      var n := |lines|;
      var init := lines[..n - 1];
      KeptIsFilter(init);
      assert forall j :: 0 <= j < n - 1 ==> init[j] == lines[j];
    }
  }

  /**
   * The kept line at position p is written exactly when p is odd: the first
   * kept line is a user line. So ⌊kept / 2⌋ lines are written.
   */
  lemma WrittenAreMessageLines(lines: seq<string>)
    ensures |Written(lines)| == |Kept(lines)| / 2
    ensures forall p :: 0 <= p < |Written(lines)| ==> Written(lines)[p] == Kept(lines)[2 * p + 1]
  {
  }

  /** How many lines are neither empty nor date lines, counted from the front. */
  function CountNotSkipped(lines: seq<string>): nat
  {
    if lines == [] then 0 else (if Skipped(lines[0]) then 0 else 1) + CountNotSkipped(lines[1..])
  }

  /** Half the lines that are not skipped, rounded down, are written. */
  lemma WrittenCount(lines: seq<string>)
    ensures |Written(lines)| == CountNotSkipped(lines) / 2
  {
    KeptCount(lines);
  }

  lemma {:induction false} KeptCount(lines: seq<string>)
    ensures |Kept(lines)| == CountNotSkipped(lines)
  {
    if lines != [] {
      var x, rest := lines[0], lines[1..];
      assert lines == [x] + rest;
      KeptConcat([x], rest);
      KeptSnoc([], x);
      assert [] + [x] == [x];
      KeptCount(rest);
    }
  }

  /**
   * The output is a subsequence of the input: the written line p is the
   * input line at the index of the odd-positioned kept line, and those
   * indices increase.
   */
  lemma WrittenIsSubsequence(lines: seq<string>)
    ensures |Written(lines)| == |OddPositions(KeptIndices(lines))|
    ensures forall p :: 0 <= p < |Written(lines)| ==>
      OddPositions(KeptIndices(lines))[p] < |lines| &&
      Written(lines)[p] == lines[OddPositions(KeptIndices(lines))[p]]
    ensures forall p, q :: 0 <= p < q < |Written(lines)| ==>
      OddPositions(KeptIndices(lines))[p] < OddPositions(KeptIndices(lines))[q]
  {
    KeptIsFilter(lines);
  }

  /** No written line is empty or a date line. */
  lemma WrittenNotSkipped(lines: seq<string>)
    ensures forall w :: w in Written(lines) ==> !Skipped(w)
  {
    KeptIsFilter(lines);
    WrittenAreMessageLines(lines);
    forall w | w in Written(lines) ensures !Skipped(w) {
      var p :| 0 <= p < |Written(lines)| && Written(lines)[p] == w;
      assert lines[KeptIndices(lines)[2 * p + 1]] == w;
    }
  }

  lemma {:induction false} KeptConcat(a: seq<string>, b: seq<string>)
    ensures Kept(a + b) == Kept(a) + Kept(b)
  {
    if b == [] {
      assert a + b == a;
    } else {
      var init, x := b[..|b| - 1], b[|b| - 1];
      assert b == init + [x];
      assert a + b == (a + init) + [x];
      KeptConcat(a, init);
      KeptSnoc(a + init, x);
      KeptSnoc(init, x);
    }
  }

  /** Appending a line keeps it unless it is skipped. */
  lemma KeptSnoc(s: seq<string>, x: string)
    ensures Kept(s + [x]) == Kept(s) + (if Skipped(x) then [] else [x])
  {
    assert (s + [x])[..|s|] == s;
  }

  /** A skipped line changes nothing: in particular it does not flip the user/message parity. */
  lemma SkippedLineIgnored(a: seq<string>, x: string, b: seq<string>)
    requires Skipped(x)
    ensures Written(a + [x] + b) == Written(a + b)
  {
    KeptConcat(a + [x], b);
    KeptConcat(a, [x]);
    KeptConcat(a, b);
    assert [x][..0] == [];
  }

  // ---------------------------------------------------------------------
  // Line separators

  /** The index of the first c in t, or |t| if there is none. */
  function IndexOf(t: string, c: char): (i: nat)
    ensures i <= |t|
    ensures i < |t| ==> t[i] == c
    ensures forall j :: 0 <= j < i ==> t[j] != c
  {
    if t == [] then 0 else if t[0] == c then 0 else 1 + IndexOf(t[1..], c)
  }

  /** Splits a text into the lines that c terminates (a last unterminated piece is a line too). */
  function SplitLines(t: string, c: char): seq<string>
    decreases |t|
  {
    if t == [] then []
    else
      var i := IndexOf(t, c);
      if i == |t| then [t] else [t[..i]] + SplitLines(t[i + 1..], c)
  }

  lemma {:induction false} TerminatedCons(w: string, ws: seq<string>, sep: string)
    ensures Terminated([w] + ws, sep) == w + sep + Terminated(ws, sep)
  {
    if ws == [] {
      assert [w] + ws == [] + [w];
      TerminatedSnoc([], w, sep);
    } else {
      var init, x := ws[..|ws| - 1], ws[|ws| - 1];
      assert ws == init + [x];
      assert [w] + ws == ([w] + init) + [x];
      TerminatedCons(w, init, sep);
      TerminatedSnoc([w] + init, x, sep);
      TerminatedSnoc(init, x, sep);
      var t := Terminated(init, sep);
      assert (w + sep + t) + x + sep == w + sep + (t + x + sep);
    }
  }

  /**
   * Each written line is followed by exactly one line terminator: splitting
   * the text at a one-character separator that no line contains gives back
   * the lines.
   */
  lemma {:induction false} SplitTerminated(ws: seq<string>, c: char)
    requires forall k :: 0 <= k < |ws| ==> c !in ws[k]
    ensures SplitLines(Terminated(ws, [c]), c) == ws
  {
    if ws != [] {
      var w, rest := ws[0], ws[1..];
      assert ws == [w] + rest;
      TerminatedCons(w, rest, [c]);
      var t := Terminated(ws, [c]);
      assert t == w + [c] + Terminated(rest, [c]);
      assert IndexOf(t, c) == |w| by {
        assert t[|w|] == c;
        assert forall j :: 0 <= j < |w| ==> t[j] == w[j];
      }
      assert t[..|w|] == w;
      assert t[|w| + 1..] == Terminated(rest, [c]);
      SplitTerminated(rest, c);
    }
  }

  /**
   * The output file read back line by line, with a one-character separator
   * that no input line contains, is exactly the written lines.
   */
  lemma OutputLines(lines: seq<string>, c: char)
    requires forall j :: 0 <= j < |lines| ==> c !in lines[j]
    ensures SplitLines(Terminated(Written(lines), [c]), c) == Written(lines)
  {
    WrittenIsSubsequence(lines);
    SplitTerminated(Written(lines), c);
  }
}
