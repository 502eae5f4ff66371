/**
 * The bit-string packer of stdio/BinaryStringOut.java (writeBits).
 *
 * Standard input is a sequence of lines, each held as Java holds a String:
 * a sequence of UTF-16 code units (Java `char`s), so a character beyond
 * U+FFFF counts as two. Each line must have a length that is a multiple of 8,
 * and every group of 8 units becomes one byte, most significant bit first
 * ('1' is a one bit, any other unit a zero).
 * The bytes of all lines are written, in order, to one output stream. The
 * first line of a wrong length stops the program; the bytes of the lines
 * before it have already been written.
 *
 * A byte is a `bv8`: Java's `byte` is signed, but the stream receives its bit
 * pattern, and the compound assignments `<<=` and `+=` on a `byte` keep the
 * low 8 bits, which is what `bv8` arithmetic does.
 */
module BitPacker {
  import opened Wrappers

  /** A Java `char`: one UTF-16 code unit. */
  newtype Unit = x: int | 0 <= x < 0x1_0000

  /** A line as the line reader returns it: its UTF-16 code units. */
  type Line = seq<Unit>

  /** The code units of the characters '1' and '0'. */
  const One: Unit := 0x31
  const Zero: Unit := 0x30

  /**
   * The UTF-16 code units of a text (section 2.1 of RFC 2781): a character
   * beyond U+FFFF becomes a high and a low surrogate.
   */
  function Utf16(s: string): (r: Line)
    ensures |r| >= |s|
  {
    if s == [] then []
    else
      var v := s[0] as int;
      (if v < 0x1_0000 then [v as Unit]
       else [(0xD800 + (v - 0x1_0000) / 0x400) as Unit, (0xDC00 + (v - 0x1_0000) % 0x400) as Unit])
      + Utf16(s[1..])
  }

  /** The bit a character stands for: only '1' is a one. */
  function Bit(c: Unit): (b: bv8)
    ensures b == 0 || b == 1
  {
    if c == One then 1 else 0
  }

  /**
   * The byte that the inner loop builds from the characters of `s`:
   * for each character, shift left by one, then add one for a '1'.
   */
  function Accumulate(s: Line): bv8
  {
    if s == [] then 0 else (Accumulate(s[..|s| - 1]) << 1) + Bit(s[|s| - 1])
  }

  /** The bytes of one line: one per group of 8 characters. */
  function PackLine(s: Line): (r: seq<bv8>)
    requires |s| % 8 == 0
    ensures |r| == |s| / 8
  {
    if s == [] then [] else [Accumulate(s[..8])] + PackLine(s[8..])
  }

  /** Byte k of a line is accumulated from characters 8k to 8k + 7. */
  lemma {:induction false} PackLineAt(s: Line, k: nat)
    requires |s| % 8 == 0 && k < |s| / 8
    ensures 8 * k + 8 <= |s| && PackLine(s)[k] == Accumulate(s[8 * k..8 * k + 8])
  {
    var m := |s| / 8;
    assert |s| == 8 * m && s != [];
    assert PackLine(s) == [Accumulate(s[..8])] + PackLine(s[8..]);
    if k > 0 {
      var j := 8 * (k - 1);
      assert |s[8..]| == 8 * (m - 1);
      PackLineAt(s[8..], k - 1);
      assert s[8..][j..j + 8] == s[j + 8..j + 16];
    }
  }

  /**
   * What writeBits leaves behind: the bytes written, and the index of the
   * line whose length was not a multiple of 8, if there was one.
   */
  datatype Packed = Packed(bytes: seq<bv8>, rejected: Option<nat>)

  /** Puts the bytes of `n` earlier, accepted lines in front of `p`. */
  function Prepend(bytes: seq<bv8>, n: nat, p: Packed): Packed
  {
    Packed(bytes + p.bytes, if p.rejected.Some? then Some(p.rejected.value + n) else None)
  }

  /** The behaviour of writeBits on the lines of standard input. */
  function Pack(lines: seq<Line>): (p: Packed)
    ensures p.rejected.Some? ==> p.rejected.value < |lines|
  {
    if lines == [] then Packed([], None)
    else if |lines[0]| % 8 != 0 then Packed([], Some(0))
    else Prepend(PackLine(lines[0]), 1, Pack(lines[1..]))
  }

  /** The part of a line that the byte at index `k` has absorbed after `i` characters. */
  ghost function Window(line: Line, i: nat, k: nat): Line
    requires 8 * k + 8 <= |line|
  {
    var lo := 8 * k;
    line[lo..if i < lo then lo else if i < lo + 8 then i else lo + 8]
  }

  /** One more character shifts the byte left and adds that character's bit. */
  lemma AccumulateSnoc(w: Line, c: Unit)
    ensures Accumulate(w + [c]) == (Accumulate(w) << 1) + Bit(c)
  {
    assert (w + [c])[..|w|] == w;
  }

  /** Reading character i extends the window of byte i / 8 and no other. */
  lemma WindowStep(line: Line, i: nat, k: nat)
    requires i < |line| && 8 * k + 8 <= |line|
    ensures 8 * k <= i < 8 * k + 8 ==> Window(line, i + 1, k) == Window(line, i, k) + [line[i]]
    ensures !(8 * k <= i < 8 * k + 8) ==> Window(line, i + 1, k) == Window(line, i, k)
  {
  }

  /** Reading character i updates only the window of byte i / 8, by one bit. */
  lemma FillStep(line: Line, i: nat, buf: seq<bv8>, next: seq<bv8>)
    requires i < |line| && |line| % 8 == 0 && |buf| == |line| / 8 && |next| == |buf|
    requires forall k :: 0 <= k < |buf| ==> buf[k] == Accumulate(Window(line, i, k))
    requires next[i / 8] == (buf[i / 8] << 1) + Bit(line[i])
    requires forall k :: 0 <= k < |buf| && k != i / 8 ==> next[k] == buf[k]
    ensures forall k :: 0 <= k < |next| ==> next[k] == Accumulate(Window(line, i + 1, k))
  {
    var q := i / 8;
    assert 8 * q <= i < 8 * q + 8;
    forall k | 0 <= k < |buf| ensures next[k] == Accumulate(Window(line, i + 1, k)) {
      WindowStep(line, i, k);
      if k == q {
        AccumulateSnoc(Window(line, i, k), line[i]);
      }
    }
  }

  /**
   * The inner loop of writeBits: a zero-filled buffer of |line| / 8 bytes,
   * where character i shifts byte i / 8 left and adds its bit.
   */
  method FillBuffer(line: Line) returns (bbuf: array<bv8>)
    requires |line| % 8 == 0
    ensures fresh(bbuf)
    ensures bbuf[..] == PackLine(line)
  {
    // Java zero-fills a new byte array
    bbuf := new bv8[|line| / 8](_ => 0);
    forall k | 0 <= k < bbuf.Length ensures bbuf[k] == Accumulate(Window(line, 0, k)) {
      assert Window(line, 0, k) == [];
    }
    for i := 0 to |line|
      invariant forall k :: 0 <= k < bbuf.Length ==> bbuf[k] == Accumulate(Window(line, i, k))
    {
      var q := i / 8;
      ghost var prev := bbuf[..];
      bbuf[q] := bbuf[q] << 1;
      if line[i] == One {
        bbuf[q] := bbuf[q] + 1;
      }
      FillStep(line, i, prev, bbuf[..]);
    }
    assert bbuf[..] == PackLine(line) by {
      forall k | 0 <= k < bbuf.Length ensures bbuf[k] == PackLine(line)[k] {
        PackLineAt(line, k);
        assert Window(line, |line|, k) == line[8 * k..8 * k + 8];
      }
    }
  }

  /**
   * writeBits: reads each line, rejects it when its length is not a multiple
   * of 8, and otherwise fills a fresh byte buffer and appends it to the output.
   */
  method WriteBits(lines: seq<Line>) returns (out: seq<bv8>, rejected: Option<nat>)
    ensures Packed(out, rejected) == Pack(lines)
  {
    out := [];
    var n := 0;
    while n < |lines|
      invariant 0 <= n <= |lines|
      invariant Pack(lines) == Prepend(out, n, Pack(lines[n..]))
    {
      var line := lines[n];
      PackStep(lines, n);
      if |line| % 8 != 0 {
        assert out + [] == out;
        return out, Some(n);
      }
      var bbuf := FillBuffer(line);
      PrependPrepend(out, bbuf[..], n, 1, Pack(lines[n + 1..]));
      out := out + bbuf[..];
      n := n + 1;
    }
    assert lines[n..] == [];
    assert out + [] == out;
    rejected := None;
  }

  /** The lines from n on: line n is packed, or rejected, before the rest. */
  lemma PackStep(lines: seq<Line>, n: nat)
    requires n < |lines|
    ensures Pack(lines[n..]) ==
      if Accepted(lines[n]) then Prepend(PackLine(lines[n]), 1, Pack(lines[n + 1..])) else Packed([], Some(0))
  {
    assert lines[n..][0] == lines[n];
    assert lines[n..][1..] == lines[n + 1..];
  }

  // ---------------------------------------------------------------------
  // Which line stops the run, and what reaches the output stream

  /** A line is accepted exactly when its length is a multiple of 8. */
  predicate Accepted(line: Line)
  {
    |line| % 8 == 0
  }

  /**
   * The run is rejected at line k exactly when k is the first line whose
   * length is not a multiple of 8; it completes exactly when every line is
   * accepted.
   */
  lemma {:induction false} PackRejectsFirstBadLine(lines: seq<Line>)
    ensures Pack(lines).rejected.None? <==> forall j :: 0 <= j < |lines| ==> Accepted(lines[j])
    ensures forall k: nat :: Pack(lines).rejected == Some(k) <==>
      k < |lines| && !Accepted(lines[k]) && forall j :: 0 <= j < k ==> Accepted(lines[j])
  {
    if lines != [] && Accepted(lines[0]) {
      PackRejectsFirstBadLine(lines[1..]);
      forall k: nat ensures Pack(lines).rejected == Some(k) <==>
        k < |lines| && !Accepted(lines[k]) && forall j :: 0 <= j < k ==> Accepted(lines[j])
      {
        if 0 < k < |lines| {
          assert forall j :: 0 <= j < k - 1 ==> lines[1..][j] == lines[j + 1];
        }
      }
    }
  }

  /**
   * Lines are processed in order: the output for `a + b` is the output for
   * `a` followed, when `a` was accepted entirely, by the output for `b`;
   * when `a` holds a bad line, nothing of `b` is written.
   */
  lemma {:induction false} PackConcat(a: seq<Line>, b: seq<Line>)
    ensures Pack(a + b) == if Pack(a).rejected.None? then Prepend(Pack(a).bytes, |a|, Pack(b)) else Pack(a)
  {
    if a == [] {
      assert a + b == b;
    } else {
      var x, r := a[0], a[1..];
      assert (a + b)[0] == x;
      assert (a + b)[1..] == r + b;
      if Accepted(x) {
        PackConcat(r, b);
        if Pack(r).rejected.None? {
          PrependPrepend(PackLine(x), Pack(r).bytes, 1, |r|, Pack(b));
        }
      }
    }
  }

  /** Prepending twice is prepending the concatenation. */
  lemma PrependPrepend(x: seq<bv8>, y: seq<bv8>, m: nat, n: nat, p: Packed)
    ensures Prepend(x, m, Prepend(y, n, p)) == Prepend(x + y, m + n, p)
  {
    assert x + (y + p.bytes) == (x + y) + p.bytes;
  }

  /** A line of length L is written as exactly L / 8 bytes. */
  lemma LineByteCount(line: Line)
    requires Accepted(line)
    ensures Pack([line]) == Packed(PackLine(line), None)
    ensures |Pack([line]).bytes| == |line| / 8
  {
    assert [line][1..] == [];
  }

  /** The number of bytes the lines make when each is accepted: |line| / 8 each. */
  function ByteTotal(lines: seq<Line>): nat
  {
    if lines == [] then 0 else |lines[0]| / 8 + ByteTotal(lines[1..])
  }

  /**
   * The bytes written are the lines' byte counts summed over the lines
   * before the rejected one, or over all lines when none is rejected.
   */
  lemma {:induction false} PackByteCount(lines: seq<Line>)
    ensures Pack(lines).rejected.None? ==> |Pack(lines).bytes| == ByteTotal(lines)
    ensures forall k :: Pack(lines).rejected == Some(k) ==> |Pack(lines).bytes| == ByteTotal(lines[..k])
  {
    if lines != [] && Accepted(lines[0]) {
      var rest := lines[1..];
      PackByteCount(rest);
      if Pack(lines).rejected.Some? {
        var k := Pack(lines).rejected.value;
        assert Pack(rest).rejected == Some(k - 1);
        assert lines[..k][1..] == rest[..k - 1];
      }
    } else if lines != [] {
      assert lines[..0] == [];
    }
  }

  /** The UTF-16 units of a text whose seventh character is beyond U+FFFF. */
  const WideLine: Line := Utf16("000000\U{1F600}")

  /**
   * Lengths count UTF-16 units: six zeros and one character beyond U+FFFF
   * make a line of length 8, accepted and written as one zero byte, while
   * seven zeros and that character make a line of length 9, rejected.
   */
  lemma SurrogatesCountTwice()
    ensures WideLine == [Zero, Zero, Zero, Zero, Zero, Zero, 0xD83D, 0xDE00]
    ensures Pack([WideLine]) == Packed([0], None)
    ensures Pack([[Zero] + WideLine]) == Packed([], Some(0))
  {
    WideLineUnits();
    var g := WideLine;
    assert g[..8] == g && g[8..] == [];
    assert Accumulate(g) == 0 by {
      OnlyOnesMatter(g, RenderByte(0));
      ByteRoundTrip(0);
    }
    LineByteCount(g);
  }

  /** The code units of WideLine: the character U+1F600 is the pair D83D DE00. */
  lemma WideLineUnits()
    ensures WideLine == [Zero, Zero, Zero, Zero, Zero, Zero, 0xD83D, 0xDE00]
  {
  }

  /**
   * An empty line is accepted and contributes no bytes: inserting it moves
   * only the index of a rejected line after it, by one.
   */
  lemma EmptyLineWritesNothing(a: seq<Line>, b: seq<Line>)
    ensures Pack(a + [[]] + b) == ShiftFrom(Pack(a + b), |a|)
  {
    assert a + [[]] + b == a + ([[]] + b);
    PackConcat(a, [[]] + b);
    PackConcat(a, b);
    var pa := Pack(a);
    if pa.rejected.None? {
      EmptyLineFirst(b);
      PrependEmpty(pa.bytes, |a|, Pack(b));
    }
  }

  /** The same bytes, with a rejected index at or after n moved up by one. */
  function ShiftFrom(p: Packed, n: nat): Packed
  {
    Packed(p.bytes, if p.rejected.Some? && p.rejected.value >= n then Some(p.rejected.value + 1) else p.rejected)
  }

  lemma PrependEmpty(bytes: seq<bv8>, n: nat, p: Packed)
    ensures Prepend(bytes, n, Prepend([], 1, p)) == ShiftFrom(Prepend(bytes, n, p), n)
  {
    assert [] + p.bytes == p.bytes;
  }

  /** A leading empty line writes no bytes and shifts a rejected index by one. */
  lemma EmptyLineFirst(b: seq<Line>)
    ensures Pack([[]] + b) == Prepend([], 1, Pack(b))
  {
    assert ([[]] + b)[1..] == b;
    assert PackLine([]) == [];
  }

  /**
   * A bad line halts the run: it and every line after it write nothing,
   * and the run reports it.
   */
  lemma BadLineHalts(a: seq<Line>, bad: Line, c: seq<Line>)
    requires forall j :: 0 <= j < |a| ==> Accepted(a[j])
    requires !Accepted(bad)
    ensures Pack(a + [bad] + c) == Packed(Pack(a).bytes, Some(|a|))
  {
    PackRejectsFirstBadLine(a);
    PackConcat(a, [bad] + c);
    assert a + [bad] + c == a + ([bad] + c);
  }

  // ---------------------------------------------------------------------
  // The value of a byte

  /** 2 to the power n. */
  function Pow2(n: nat): (r: nat)
    ensures r >= 1
  {
    if n == 0 then 1 else 2 * Pow2(n - 1)
  }

  /** The bit of a character as a number. */
  function BitValue(c: Unit): nat
  {
    if c == One then 1 else 0
  }

  /** The number whose binary digits, most significant first, are the bits of s. */
  function Weight(s: Line): nat
  {
    if s == [] then 0 else BitValue(s[0]) * Pow2(|s| - 1) + Weight(s[1..])
  }

  lemma {:induction false} WeightSnoc(s: Line, c: Unit)
    ensures Weight(s + [c]) == 2 * Weight(s) + BitValue(c)
  {
    if s == [] {
      assert [c][1..] == [];
    } else {
      assert (s + [c])[1..] == s[1..] + [c];
      WeightSnoc(s[1..], c);
    }
  }

  lemma {:induction false} WeightBound(s: Line)
    ensures Weight(s) < Pow2(|s|)
  {
    if s != [] {
      WeightBound(s[1..]);
    }
  }

  /** Shifting a byte left doubles it, modulo 256. */
  lemma ShiftValue(x: bv8)
    ensures (x << 1) as int == (2 * (x as int)) % 256
    ensures (x << 1) & 1 == 0
  {
  }

  /** Adding a bit to an even byte does not carry. */
  lemma AddLowBit(y: bv8, b: bv8)
    requires y & 1 == 0 && (b == 0 || b == 1)
    ensures (y + b) as int == y as int + b as int
  {
    if b == 1 {
      assert y != 255;
      IncNoWrap(y);
    }
  }

  lemma IncNoWrap(y: bv8)
    requires y != 255
    ensures (y + 1) as int == y as int + 1
  {
  }

  /** Shifting a byte left and adding a bit, read as numbers. */
  lemma ShiftAddValue(x: bv8, b: bv8)
    requires b == 0 || b == 1
    ensures ((x << 1) + b) as int == (2 * (x as int) + b as int) % 256
  {
    ShiftValue(x);
    AddLowBit(x << 1, b);
    var v := x as int;
    assert (2 * v) % 256 + b as int == (2 * v + b as int) % 256 by {
      var q := (2 * v) / 256;
      assert 2 * v == 256 * q + (2 * v) % 256;
    }
  }

  /**
   * The byte accumulated from s is the sum of bit(s[j]) * 2^(|s|-1-j) modulo
   * 256: the characters are read most significant bit first.
   */
  lemma {:induction false} AccumulateValue(s: Line)
    ensures Accumulate(s) as int == Weight(s) % 256
  {
    if s != [] {
      var p, c := s[..|s| - 1], s[|s| - 1];
      assert s == p + [c];
      AccumulateValue(p);
      WeightSnoc(p, c);
      ShiftAddValue(Accumulate(p), Bit(c));
      DoubleMod(Weight(p), BitValue(c));
    }
  }

  lemma DoubleMod(w: nat, b: nat)
    ensures (2 * (w % 256) + b) % 256 == (2 * w + b) % 256
  {
    var q := w / 256;
    assert w == 256 * q + w % 256;
    assert 2 * w + b == 256 * (2 * q) + (2 * (w % 256) + b);
  }

  /**
   * Byte k of a line is the sum over j < 8 of bit(line[8k+j]) * 2^(7-j):
   * no bit is lost, since eight bits never exceed 255.
   */
  lemma PackLineByte(line: Line, k: nat)
    requires Accepted(line) && k < |line| / 8
    ensures PackLine(line)[k] as int == Weight(line[8 * k..8 * k + 8])
  {
    PackLineAt(line, k);
    ByteValue(line[8 * k..8 * k + 8]);
  }

  /** Eight characters accumulate to their weight, which is below 256. */
  lemma ByteValue(g: Line)
    requires |g| == 8
    ensures Accumulate(g) as int == Weight(g)
  {
    AccumulateValue(g);
    WeightBound(g);
    Pow2Eight();
    SmallMod(Weight(g));
  }

  lemma SmallMod(w: nat)
    requires w < 256
    ensures w % 256 == w
  {
  }

  lemma Pow2Eight()
    ensures Pow2(8) == 256
  {
  }

  /** Only the character '1' yields a one bit: lines that agree on where the '1's are pack alike. */
  lemma {:induction false} OnlyOnesMatter(s: Line, t: Line)
    requires |s| == |t|
    requires forall j :: 0 <= j < |s| ==> (s[j] == One <==> t[j] == One)
    ensures Accumulate(s) == Accumulate(t)
  {
    if s != [] {
      var n := |s|;
      var p, q, x, y := s[..n - 1], t[..n - 1], s[n - 1], t[n - 1];
      assert forall j :: 0 <= j < n - 1 ==> p[j] == s[j] && q[j] == t[j];
      OnlyOnesMatter(p, q);
      assert x == One <==> y == One;
      assert s == p + [x] && t == q + [y];
      AccumulateSnoc(p, x);
      AccumulateSnoc(q, y);
    }
  }

  /** Lines that agree on where the '1's are give the same bytes. */
  lemma OnlyOnesMatterInLine(s: Line, t: Line)
    requires |s| == |t| && Accepted(s)
    requires forall j :: 0 <= j < |s| ==> (s[j] == One <==> t[j] == One)
    ensures PackLine(s) == PackLine(t)
  {
    forall k | 0 <= k < |s| / 8 ensures PackLine(s)[k] == PackLine(t)[k] {
      PackLineAt(s, k);
      PackLineAt(t, k);
      OnlyOnesMatter(s[8 * k..8 * k + 8], t[8 * k..8 * k + 8]);
    }
  }

  // ---------------------------------------------------------------------
  // Round trip

  /** The character for the lowest bit of b. */
  function LowBitChar(b: bv8): Unit
  {
    if b & 1 == 1 then One else Zero
  }

  /** The lowest n bits of b as '0'/'1' characters, most significant first. */
  function RenderBits(b: bv8, n: nat): (s: Line)
    ensures |s| == n
  {
    if n == 0 then [] else RenderBits(b >> 1, n - 1) + [LowBitChar(b)]
  }

  /** A byte written as 8 characters '0'/'1', most significant bit first. */
  function RenderByte(b: bv8): (s: Line)
    ensures |s| == 8
  {
    RenderBits(b, 8)
  }

  /** Bytes written as one '0'/'1' line, 8 characters per byte. */
  function Render(bytes: seq<bv8>): (s: Line)
    ensures |s| == 8 * |bytes|
  {
    if bytes == [] then [] else RenderByte(bytes[0]) + Render(bytes[1..])
  }

  /** The mask of the lowest n bits of a byte. */
  function Mask(n: nat): bv8
  {
    if n == 0 then 0 else (Mask(n - 1) << 1) + 1
  }

  /** Bits below the lowest one, shifted back into place, with the lowest bit added. */
  lemma MaskStep(x: bv8, m: bv8)
    ensures (((x >> 1) & m) << 1) + (x & 1) == x & ((m << 1) + 1)
  {
  }

  /** Packing the rendering of the lowest n bits of b gives back those bits. */
  lemma {:induction false} RenderBitsRoundTrip(b: bv8, n: nat)
    ensures Accumulate(RenderBits(b, n)) == b & Mask(n)
  {
    if n > 0 {
      var p, c := RenderBits(b >> 1, n - 1), LowBitChar(b);
      assert RenderBits(b, n) == p + [c];
      RenderBitsRoundTrip(b >> 1, n - 1);
      AccumulateSnoc(p, c);
      LowBit(b);
      MaskStep(b, Mask(n - 1));
    }
  }

  /** The bit of the character for the lowest bit of b is that bit. */
  lemma LowBit(b: bv8)
    ensures Bit(LowBitChar(b)) == b & 1
  {
  }

  /** Packing the rendering of a byte gives the byte back. */
  lemma ByteRoundTrip(b: bv8)
    ensures Accumulate(RenderByte(b)) == b
  {
    RenderBitsRoundTrip(b, 8);
    assert Mask(8) == 255;
  }

  /** A line made of a full byte's 8 characters and a rest packs as that byte, then the rest. */
  lemma PackLineCons(x: Line, y: Line)
    requires |x| == 8 && Accepted(y)
    ensures PackLine(x + y) == [Accumulate(x)] + PackLine(y)
  {
    assert (x + y)[..8] == x;
    assert (x + y)[8..] == y;
  }

  /** Rendering bytes as a '0'/'1' line and packing that line gives the bytes back. */
  lemma {:induction false} RenderRoundTrip(bytes: seq<bv8>)
    ensures Accepted(Render(bytes)) && PackLine(Render(bytes)) == bytes
  {
    if bytes != [] {
      RenderRoundTrip(bytes[1..]);
      PackLineCons(RenderByte(bytes[0]), Render(bytes[1..]));
      ByteRoundTrip(bytes[0]);
    }
  }

  /** writeBits on the rendered line writes exactly the original bytes and completes. */
  lemma WriteRenderedLine(bytes: seq<bv8>)
    ensures Pack([Render(bytes)]) == Packed(bytes, None)
  {
    RenderRoundTrip(bytes);
    LineByteCount(Render(bytes));
  }
}
