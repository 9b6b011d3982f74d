/**
 * The web client's state labels (web/src/lib/binary-label.ts).
 *
 * `toBinaryLabel` is JavaScript `n.toString(2)` left-padded with `'0'` to the
 * maximum height, optionally reversed. `toAbbreviatedLabel` walks the positions
 * from `maxHeight - 1` down to 0 and, for every set bit, emits one character
 * that counts the clear bits seen since the previous set bit (or since the top).
 */
module BinaryLabel {
  import opened Bitmask
  import opened Results
  import opened Text
  import StateNotation

  predicate IsBinary(s: string)
  {
    forall i :: 0 <= i < |s| ==> s[i] == '0' || s[i] == '1'
  }

  function BitChar(b: bool): char
  {
    if b then '1' else '0'
  }

  /** JavaScript `n.toString(2)`: base 2 without leading zeros, `"0"` for zero. */
  function Base2(n: nat): (r: string)
    ensures |r| >= 1 && IsBinary(r)
    ensures |r| > 1 ==> r[0] == '1'
  {
    if n < 2 then [BitChar(n == 1)] else Base2(n / 2) + [BitChar(n % 2 == 1)]
  }

  lemma {:induction false} Base2Value(n: nat)
    ensures StateNotation.BinaryValue(Base2(n)) == n
  {
    if n >= 2 {
      var r := Base2(n);
      assert r[..|r| - 1] == Base2(n / 2);
      Base2Value(n / 2);
    }
  }

  /** A value below `2^k` (with `k >= 1`) needs at most `k` binary digits. */
  lemma {:induction false} Base2Length(n: nat, k: nat)
    requires k >= 1 && n < Pow2(k)
    ensures |Base2(n)| <= k
  {
    if n >= 2 {
      assert k >= 2;
      HalfBound(n, k - 1);
      Base2Length(n / 2, k - 1);
    }
  }

  /** A value of `2^k` or more needs more than `k` binary digits. */
  lemma {:induction false} Base2LengthAbove(n: nat, k: nat)
    requires n >= Pow2(k)
    ensures |Base2(n)| > k
  {
    if k > 0 {
      assert n / 2 >= Pow2(k - 1);
      Base2LengthAbove(n / 2, k - 1);
    }
  }

  /** `toBinaryLabel(n, maxHeight, reversed)`. */
  function ToBinaryLabel(n: nat, maxHeight: nat, reversed: bool): (r: string)
    ensures |r| >= maxHeight && IsBinary(r)
  {
    var binary := PadStart(Base2(n), maxHeight, '0');
    if reversed then Reverse(binary) else binary
  }

  // ---------------------------------------------------------------------
  // Reading a binary string back
  // ---------------------------------------------------------------------

  /** Leading zeros do not change the value. */
  lemma {:induction false} BinaryValueLeadingZeros(j: nat, s: string)
    ensures StateNotation.BinaryValue(Repeat('0', j) + s) == StateNotation.BinaryValue(s)
    decreases j
  {
    if j > 0 {
      var t := Repeat('0', j - 1) + s;
      assert Repeat('0', j) == ['0'] + Repeat('0', j - 1);
      assert Repeat('0', j) + s == ['0'] + t;
      StateNotation.BinaryValueCons('0', t);
      BinaryValueLeadingZeros(j - 1, s);
      calc {
        StateNotation.BinaryValue(Repeat('0', j) + s);
        StateNotation.BinaryValue(['0'] + t);
        StateNotation.BinaryValue(t);
      }
    } else {
      assert Repeat('0', j) + s == s;
    }
  }

  /** Two binary strings of one length with one value are the same string. */
  lemma {:induction false} BinaryValueInjective(s: string, t: string)
    requires IsBinary(s) && IsBinary(t) && |s| == |t|
    requires StateNotation.BinaryValue(s) == StateNotation.BinaryValue(t)
    ensures s == t
    decreases |s|
  {
    if |s| > 0 {
      var k := |s| - 1;
      assert s[k] == t[k] by {
        assert StateNotation.BinaryValue(s) % 2 == (if s[k] == '1' then 1 else 0);
        assert StateNotation.BinaryValue(t) % 2 == (if t[k] == '1' then 1 else 0);
      }
      BinaryValueInjective(s[..k], t[..k]);
      assert s == s[..k] + [s[k]] && t == t[..k] + [t[k]];
    }
  }

  // ---------------------------------------------------------------------
  // Properties of the binary label
  // ---------------------------------------------------------------------

  /** For `n < 2^m` (and `m >= 1`) the plain label has `m` digits and reads back as `n`. */
  lemma LabelShape(n: nat, m: nat)
    requires m >= 1 && n < Pow2(m)
    ensures |ToBinaryLabel(n, m, false)| == m
    ensures StateNotation.BinaryValue(ToBinaryLabel(n, m, false)) == n
  {
    Base2Length(n, m);
    Base2Value(n);
    BinaryValueLeadingZeros(m - |Base2(n)|, Base2(n));
  }

  /** `padStart` never truncates: a value of `2^m` or more gets a label longer than `m`. */
  lemma LabelOverflows(n: nat, m: nat, reversed: bool)
    requires n >= Pow2(m)
    ensures |ToBinaryLabel(n, m, reversed)| > m
  {
    Base2LengthAbove(n, m);
  }

  /** The reversed label is the plain label read backwards. */
  lemma LabelReversed(n: nat, m: nat)
    ensures |ToBinaryLabel(n, m, true)| == |ToBinaryLabel(n, m, false)|
    ensures forall i :: 0 <= i < |ToBinaryLabel(n, m, true)| ==>
      ToBinaryLabel(n, m, true)[i] == ToBinaryLabel(n, m, false)[|ToBinaryLabel(n, m, false)| - 1 - i]
  {
  }

  /** The plain label is the engine's `to_binary_string` of the same bits. */
  lemma LabelMatchesBinaryString(n: nat, m: nat, w: StateNotation.BitsWidth)
    requires 1 <= m <= w && n < Pow2(m)
    ensures ToBinaryLabel(n, m, false) == StateNotation.ToBinaryString(StateNotation.State(n), m, w)
  {
    var s := StateNotation.State(n);
    LabelShape(n, m);
    StateNotation.BinaryStringValue(s, m, w);
    BinaryValueInjective(ToBinaryLabel(n, m, false), StateNotation.ToBinaryString(s, m, w));
  }

  /** Character `i` of the plain label is bit `m-1-i`; of the reversed label, bit `i`. */
  lemma LabelBits(n: nat, m: nat)
    requires 1 <= m <= 128 && n < Pow2(m)
    ensures |ToBinaryLabel(n, m, false)| == m && |ToBinaryLabel(n, m, true)| == m
    ensures forall i :: 0 <= i < m ==> (ToBinaryLabel(n, m, false)[i] == '1' <==> IsSet(n, m - 1 - i))
    ensures forall i :: 0 <= i < m ==> (ToBinaryLabel(n, m, true)[i] == '1' <==> IsSet(n, i))
  {
    LabelMatchesBinaryString(n, m, 128);
    LabelReversed(n, m);
  }

  /** Read back, the plain label is the value itself, whatever the width. */
  lemma LabelValue(n: nat, m: nat)
    ensures StateNotation.BinaryValue(ToBinaryLabel(n, m, false)) == n
  {
    var s := Base2(n);
    assert ToBinaryLabel(n, m, false) == PadStart(s, m, '0');
    Base2Value(n);
    PadValue(s, m);
  }

  /** Padding with zeros on the left keeps the value. */
  lemma PadValue(s: string, m: nat)
    ensures StateNotation.BinaryValue(PadStart(s, m, '0')) == StateNotation.BinaryValue(s)
  {
    if |s| < m {
      BinaryValueLeadingZeros(m - |s|, s);
    }
  }

  /** At a fixed width and direction, distinct values get distinct labels. */
  lemma LabelInjective(a: nat, b: nat, m: nat, reversed: bool)
    requires ToBinaryLabel(a, m, reversed) == ToBinaryLabel(b, m, reversed)
    ensures a == b
  {
    var x, y := ToBinaryLabel(a, m, false), ToBinaryLabel(b, m, false);
    if reversed {
      LabelReversed(a, m);
      LabelReversed(b, m);
      assert |x| == |y|;
      forall i | 0 <= i < |x|
        ensures x[i] == y[i]
      {
        assert x[i] == ToBinaryLabel(a, m, true)[|x| - 1 - i];
      }
      assert x == y;
    }
    LabelValue(a, m);
    LabelValue(b, m);
  }

  /** Width 0: `toString(2)` of zero is `"0"`, so the label is one digit long. */
  lemma LabelZeroWidth()
    ensures ToBinaryLabel(0, 0, false) == "0"
  {
  }

  // ---------------------------------------------------------------------
  // The abbreviated label
  // ---------------------------------------------------------------------

  /** `gap < 10 ? String(gap) : String.fromCharCode(87 + gap)`; 10 is `'a'`. */
  function GapChar(gap: nat): (c: char)
    requires gap < 64
  {
    if gap < 10 then DigitChar(gap) else (87 + gap) as char
  }

  /** The gap a character stands for, if it is one the label can contain. */
  function GapValue(c: char): (r: Option<nat>)
    ensures r.Some? ==> r.value < 64 && GapChar(r.value) == c
  {
    if IsDigit(c) then Some(DigitValue(c))
    else if 'a' <= c && (c as int) < 87 + 64 then Some((c as int) - 87)
    else None
  }

  lemma GapRoundTrip(gap: nat)
    requires gap < 64
    ensures GapValue(GapChar(gap)) == Some(gap)
  {
  }

  /**
   * The loop of `toAbbreviatedLabel` over positions `pos - 1` down to 0,
   * entered with `gap` clear positions already counted.
   */
  function Abbrev(n: nat, pos: nat, gap: nat): (r: string)
    requires pos + gap <= 32
    decreases pos
  {
    if pos == 0 then ""
    else if Bit(n, pos - 1) == 1 then [GapChar(gap)] + Abbrev(n, pos - 1, 0)
    else Abbrev(n, pos - 1, gap + 1)
  }

  /**
   * `toAbbreviatedLabel(n, maxHeight)`. The JavaScript shift `n >> pos` is only
   * a bit test for `pos < 32`, so `maxHeight` is at most 32.
   */
  function AbbreviatedLabel(n: nat, maxHeight: nat): (r: string)
    requires maxHeight <= 32
    ensures |r| == Popcount(n % Pow2(maxHeight))
  {
    AbbrevLength(n, maxHeight, 0);
    CountBelowIsPopcountMod(n, maxHeight);
    Abbrev(n, maxHeight, 0)
  }

  /** One character per set bit below `pos`. */
  lemma {:induction false} AbbrevLength(n: nat, pos: nat, gap: nat)
    requires pos + gap <= 32
    ensures |Abbrev(n, pos, gap)| == CountBelow(n, pos)
    decreases pos
  {
    if pos > 0 {
      if Bit(n, pos - 1) == 1 {
        AbbrevLength(n, pos - 1, 0);
      } else {
        AbbrevLength(n, pos - 1, gap + 1);
      }
    }
  }

  /**
   * Decoding an abbreviated label whose first set bit is below position
   * `top`: each character skips its gap of clear positions and sets the next.
   * `None` for a character that is not a gap, or a gap that runs past bit 0.
   */
  function DecodeAbbrev(s: string, top: nat): Option<nat>
    decreases |s|
  {
    if |s| == 0 then Some(0)
    else match GapValue(s[0])
      case None => None
      case Some(g) =>
        if g + 1 > top then None
        else
          var p := top - g - 1;
          match DecodeAbbrev(s[1..], p)
          case None => None
          case Some(rest) => Some(Pow2(p) + rest)
  }

  /** Whatever the decoder accepts lies below `2^top`. */
  lemma {:induction false} DecodeAbbrevBound(s: string, top: nat)
    ensures DecodeAbbrev(s, top).Some? ==> DecodeAbbrev(s, top).value < Pow2(top)
    decreases |s|
  {
    if |s| > 0 && GapValue(s[0]).Some? {
      var g := GapValue(s[0]).value;
      if g + 1 <= top {
        var p := top - g - 1;
        DecodeAbbrevBound(s[1..], p);
        Pow2Monotonic(p + 1, top);
      }
    }
  }

  /** Decoding the loop's output from `pos + gap` recovers the bits below `pos`. */
  lemma {:induction false} AbbrevDecodes(n: nat, pos: nat, gap: nat)
    requires pos + gap <= 32
    ensures DecodeAbbrev(Abbrev(n, pos, gap), pos + gap) == Some(n % Pow2(pos))
    decreases pos
  {
    if pos > 0 {
      var j := pos - 1;
      if Bit(n, j) == 1 {
        AbbrevDecodes(n, j, 0);
        DecodeSetBit(n, j, gap);
      } else {
        AbbrevDecodes(n, j, gap + 1);
        DecodeClearBit(n, j, gap);
      }
    }
  }

  /** A set bit `j` is emitted as its gap and decoded as `2^j`. */
  lemma DecodeSetBit(n: nat, j: nat, gap: nat)
    requires j + gap + 1 <= 32 && Bit(n, j) == 1
    requires DecodeAbbrev(Abbrev(n, j, 0), j) == Some(n % Pow2(j))
    ensures DecodeAbbrev(Abbrev(n, j + 1, gap), j + gap + 1) == Some(n % Pow2(j + 1))
  {
    var rest := Abbrev(n, j, 0);
    var s := [GapChar(gap)] + rest;
    assert Abbrev(n, j + 1, gap) == s;
    assert s[1..] == rest;
    GapRoundTrip(gap);
    DecodeStep(s, j, gap, n % Pow2(j));
    ModPow2SuccSet(n, j);
  }

  /** A clear bit `j` only widens the gap and adds nothing. */
  lemma DecodeClearBit(n: nat, j: nat, gap: nat)
    requires j + gap + 1 <= 32 && Bit(n, j) == 0
    requires DecodeAbbrev(Abbrev(n, j, gap + 1), j + gap + 1) == Some(n % Pow2(j))
    ensures DecodeAbbrev(Abbrev(n, j + 1, gap), j + gap + 1) == Some(n % Pow2(j + 1))
  {
    assert Abbrev(n, j + 1, gap) == Abbrev(n, j, gap + 1);
    ModPow2SuccClear(n, j);
  }

  /** One step of the decoder: a first character worth gap `g` sets bit `p` of a `p + g + 1`-bit value. */
  lemma DecodeStep(s: string, p: nat, g: nat, v: nat)
    requires |s| > 0 && GapValue(s[0]) == Some(g)
    requires DecodeAbbrev(s[1..], p) == Some(v)
    ensures DecodeAbbrev(s, p + g + 1) == Some(Pow2(p) + v)
  {
  }

  /** The abbreviated label determines the bits below `maxHeight`. */
  lemma AbbreviatedRoundTrip(n: nat, maxHeight: nat)
    requires maxHeight <= 32
    ensures DecodeAbbrev(AbbreviatedLabel(n, maxHeight), maxHeight) == Some(n % Pow2(maxHeight))
  {
    AbbrevDecodes(n, maxHeight, 0);
  }

  /** So at a fixed height, two states below `2^maxHeight` share a label only if they are equal. */
  lemma AbbreviatedInjective(a: nat, b: nat, maxHeight: nat)
    requires maxHeight <= 32 && a < Pow2(maxHeight) && b < Pow2(maxHeight)
    requires AbbreviatedLabel(a, maxHeight) == AbbreviatedLabel(b, maxHeight)
    ensures a == b
  {
    AbbreviatedRoundTrip(a, maxHeight);
    AbbreviatedRoundTrip(b, maxHeight);
    ModOfSmall(a, maxHeight);
    ModOfSmall(b, maxHeight);
  }

  /** Zero has no set bit and so an empty label, whatever the height. */
  lemma AbbreviatedZero(maxHeight: nat)
    requires maxHeight <= 32
    ensures AbbreviatedLabel(0, maxHeight) == ""
  {
  }

  /** Worked values: trailing clear bits vanish, and a gap of 11 is `'b'`. */
  lemma AbbreviatedExamples()
    ensures AbbreviatedLabel(0x0A, 5) == "11"
    ensures AbbreviatedLabel(0x07, 5) == "200"
    ensures AbbreviatedLabel(0x01, 12) == "b"
  {
    AbbrevTenFive();
    AbbrevSevenFive();
    AbbrevOneTwelve(11);
  }

  lemma AbbrevTenFive()
    ensures Abbrev(0x0A, 5, 0) == "11"
  {
    assert Bit(0x0A, 0) == 0 && Bit(0x0A, 1) == 1 && Bit(0x0A, 2) == 0;
    assert Bit(0x0A, 3) == 1 && Bit(0x0A, 4) == 0;
    assert Abbrev(0x0A, 1, 0) == "";
    assert Abbrev(0x0A, 2, 0) == "0";
    assert Abbrev(0x0A, 3, 0) == "1";
    assert Abbrev(0x0A, 2, 1) == "1";
    assert Abbrev(0x0A, 5, 0) == Abbrev(0x0A, 4, 1);
    assert Abbrev(0x0A, 4, 1) == "1" + Abbrev(0x0A, 3, 0);
  }

  lemma AbbrevSevenFive()
    ensures Abbrev(0x07, 5, 0) == "200"
  {
    assert Bit(0x07, 0) == 1 && Bit(0x07, 1) == 1 && Bit(0x07, 2) == 1;
    assert Bit(0x07, 3) == 0 && Bit(0x07, 4) == 0;
    assert Abbrev(0x07, 1, 0) == "0";
    assert Abbrev(0x07, 2, 0) == "00";
    assert Abbrev(0x07, 3, 2) == "2" + "00";
  }

  /** Bits 1 to `k` of 1 are clear, so the gap counts up to `k`. */
  lemma {:induction false} AbbrevOneTwelve(k: nat)
    requires k <= 11
    ensures Abbrev(0x01, k + 1, 11 - k) == [GapChar(11)]
    decreases k
  {
    if k > 0 {
      BitAboveBound(1, 1, k);
      AbbrevOneTwelve(k - 1);
    } else {
      assert Bit(1, 0) == 1;
    }
  }

  /** The crate test values in the web form: plain and reversed labels. */
  lemma BinaryLabelExamples()
    ensures ToBinaryLabel(0x0A, 5, false) == "01010"
    ensures ToBinaryLabel(0x06, 5, true) == "01100"
  {
    assert Base2(1) == "1";
    assert Base2(2) == "10";
    assert Base2(5) == "101";
    assert Base2(0x0A) == "1010";
    assert Base2(3) == "11";
    assert Base2(0x06) == "110";
    assert PadStart("110", 5, '0') == "00110";
  }
}
