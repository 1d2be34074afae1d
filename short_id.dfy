/** The short id of a post (its `bid`) is its numeric id (`mid`) written in
    base 62 over the alphabet `0-9a-zA-Z`, seven decimal digits of the id to
    each group of four base-62 symbols. `BidToMid` is the decoder exactly as
    the program slices its input; `BidToMidFixed` is the decoder the slicing
    evidently meant, proved to invert the encoder `MidToBid`. */
module ShortId {
  import opened Wrappers
  import opened Text

  /** The source's alphabet string, digits, then lower case, then upper case. */
  const Alphabet := "0123456789" + "abcdefghijklmnopqrstuvwxyz" + "ABCDEFGHIJKLMNOPQRSTUVWXYZ"

  /** The symbol of base-62 digit `d`: the `d`-th character of `Alphabet`. */
  function Symbol(d: nat): (c: char)
    requires d < 62
  {
    if d < 10 then ('0' as int + d) as char
    else if d < 36 then ('a' as int + d - 10) as char
    else ('A' as int + d - 36) as char
  }

  lemma AlphabetSymbol(d: nat)
    requires d < 62
    ensures Alphabet[d] == Symbol(d)
  {
  }

  lemma AlphabetSymbols()
    ensures |Alphabet| == 62
    ensures forall d :: 0 <= d < 62 ==> Alphabet[d] == Symbol(d)
  {
    forall d | 0 <= d < 62
      ensures Alphabet[d] == Symbol(d)
    {
      AlphabetSymbol(d);
    }
  }

  /** `alphabet_index.get(c)`: the digit a symbol stands for, `None` for a
      character outside the alphabet (where the dictionary raises
      `KeyError`). */
  function CharIndex(c: char): (r: Option<nat>)
    ensures r.Some? ==> r.value < 62 && Symbol(r.value) == c
    ensures r.None? ==> forall d :: 0 <= d < 62 ==> Symbol(d) != c
  {
    if '0' <= c <= '9' then Some(c as int - '0' as int)
    else if 'a' <= c <= 'z' then Some(c as int - 'a' as int + 10)
    else if 'A' <= c <= 'Z' then Some(c as int - 'A' as int + 36)
    else None
  }

  predicate InAlphabet(s: string) {
    forall i :: 0 <= i < |s| ==> CharIndex(s[i]).Some?
  }

  /** A string is over the alphabet exactly when both of its parts are. */
  lemma InAlphabetSplit(s: string, i: nat)
    requires i <= |s|
    ensures InAlphabet(s) <==> InAlphabet(s[..i]) && InAlphabet(s[i..])
  {
    if InAlphabet(s[..i]) && InAlphabet(s[i..]) {
      forall k | 0 <= k < |s|
        ensures CharIndex(s[k]).Some?
      {
        if k < i { assert s[k] == s[..i][k]; } else { assert s[k] == s[i..][k - i]; }
      }
    }
  }

  /** The base-62 value of a chunk, last symbol least significant
      (`convert_to_number` before zero filling); `None` on `KeyError`. */
  function ChunkValue(chunk: string): (r: Option<nat>)
    ensures r.Some? <==> InAlphabet(chunk)
    ensures r.Some? ==> r.value < Pow(62, |chunk|)
  {
    if chunk == [] then Some(0)
    else
      var init := chunk[..|chunk| - 1];
      assert forall i :: 0 <= i < |init| ==> init[i] == chunk[i];
      match (ChunkValue(init), CharIndex(chunk[|chunk| - 1]))
      case (Some(v), Some(d)) =>
        assert v * 62 + d < Pow(62, |chunk|) by {
          assert v + 1 <= Pow(62, |init|);
          assert (v + 1) * 62 <= Pow(62, |init|) * 62;
        }
        Some(v * 62 + d)
      case _ => None
  }

  /** The `k` least significant terms of the sum the program computes:
      `sum(index(c) * 62 ** j for j, c in enumerate(reversed(chunk)))`
      taken over `j < k`. */
  function PowerSum(chunk: string, k: nat): nat
    requires InAlphabet(chunk) && k <= |chunk|
  {
    if k == 0 then 0
    else PowerSum(chunk, k - 1) + CharIndex(chunk[|chunk| - k]).value * Pow(62, k - 1)
  }

  lemma {:induction false} PowerSumShift(chunk: string, k: nat)
    requires InAlphabet(chunk) && 1 <= k <= |chunk|
    ensures InAlphabet(chunk[..|chunk| - 1])
    ensures PowerSum(chunk, k)
      == CharIndex(chunk[|chunk| - 1]).value + 62 * PowerSum(chunk[..|chunk| - 1], k - 1)
  {
    var init := chunk[..|chunk| - 1];
    assert InAlphabet(init) by {
      assert forall i :: 0 <= i < |init| ==> init[i] == chunk[i];
    }
    if k > 1 {
      PowerSumShift(chunk, k - 1);
      var a := CharIndex(chunk[|chunk| - k]).value;
      var last := CharIndex(chunk[|chunk| - 1]).value;
      var p := Pow(62, k - 2);
      var rest := PowerSum(init, k - 2);
      assert PowerSum(init, k - 1) == rest + a * p by {
        assert init[|init| - (k - 1)] == chunk[|chunk| - k];
      }
      assert PowerSum(chunk, k) == last + 62 * rest + a * Pow(62, k - 1);
      assert Pow(62, k - 1) == 62 * p;
      ShiftArithmetic(last, rest, a, p);
    }
  }

  lemma ShiftArithmetic(last: int, rest: int, a: int, p: int)
    ensures last + 62 * rest + a * (62 * p) == last + 62 * (rest + a * p)
  {
  }

  /** A chunk's value is the sum of its digits times powers of 62, the last
      character least significant. */
  lemma {:induction false} ChunkValueIsPowerSum(chunk: string)
    requires InAlphabet(chunk)
    ensures ChunkValue(chunk) == Some(PowerSum(chunk, |chunk|))
  {
    if chunk != [] {
      var init := chunk[..|chunk| - 1];
      PowerSumShift(chunk, |chunk|);
      ChunkValueIsPowerSum(init);
      var v, d := PowerSum(init, |init|), CharIndex(chunk[|chunk| - 1]).value;
      assert ChunkValue(chunk) == Some(v * 62 + d);
      assert PowerSum(chunk, |chunk|) == d + 62 * v;
    }
  }

  /** `convert_to_number(chunk)`: the chunk's value as a decimal string,
      zero filled to seven digits. */
  function Convert(chunk: string): (r: Option<string>)
    ensures r.Some? <==> InAlphabet(chunk)
    ensures r.Some? ==> AllDigits(r.value) && |r.value| >= 7
    ensures r.Some? ==> DecimalValue(r.value) == ChunkValue(chunk).value
  {
    match ChunkValue(chunk)
    case Some(v) =>
      ZFillValue(Digits(v), 7);
      Some(ZFill(Digits(v), 7))
    case None => None
  }

  /** `''.join(convert_to_number(c) for c in chunks)`; `None` when a chunk
      raises `KeyError`. */
  function ConvertAll(chunks: seq<string>): (r: Option<string>)
    ensures r.Some? <==> forall k :: 0 <= k < |chunks| ==> InAlphabet(chunks[k])
    ensures r.Some? ==> AllDigits(r.value) && |r.value| >= 7 * |chunks|
  {
    if chunks == [] then Some("")
    else
      assert forall k :: 1 <= k < |chunks| ==> chunks[k] == chunks[1..][k - 1];
      match (Convert(chunks[0]), ConvertAll(chunks[1..]))
      case (Some(a), Some(b)) =>
        DecimalValueAppend(a, b);
        Some(a + b)
      case _ => None
  }

  /** A Python slice index `i` into a sequence of length `n`. */
  function SliceIndex(i: int, n: nat): (r: nat)
    ensures r <= n
  {
    if i < 0 then (if i + n < 0 then 0 else i + n)
    else if i > n then n
    else i
  }

  /** Python's `s[a:b]`. */
  function PySlice(s: string, a: int, b: int): string {
    var lo, hi := SliceIndex(a, |s|), SliceIndex(b, |s|);
    if lo < hi then s[lo..hi] else ""
  }

  /** Chunk `i` as the program slices it:
      `string[max(-4 * (i + 1), -len(string)): -4 * i]`. */
  function WrittenChunk(s: string, i: nat): string {
    PySlice(s, if -4 * (i + 1) < -|s| then -|s| else -4 * (i + 1), -4 * i)
  }

  /** `math.ceil(len(string) / 4)` chunks. */
  function WrittenChunks(s: string): (chunks: seq<string>)
    ensures |s| <= 4 * |chunks| < |s| + 4
  {
    seq((|s| + 3) / 4, i requires 0 <= i => WrittenChunk(s, i))
  }

  /** `bid_to_mid` as written: `KeyError` if a converted chunk holds a
      character outside the alphabet, `ValueError` from `int('')` for the
      empty string. */
  function BidToMid(s: string): (r: Result<nat>)
    ensures r == Err(ValueError) <==> s == []
    ensures r.Ok? <==> s != [] && forall k :: 0 <= k < |WrittenChunks(s)| ==> InAlphabet(WrittenChunks(s)[k])
    ensures r.Err? && s != [] ==> r == Err(KeyError)
  {
    match ConvertAll(WrittenChunks(s))
    case None => Err(KeyError)
    case Some(digits) => if digits == [] then Err(ValueError) else Ok(DecimalValue(digits))
  }

  /** The slice for `i = 0` ends at `-4 * 0 == 0`, so the first chunk is
      always empty: the last four characters are never read. */
  lemma WrittenChunkZero(s: string)
    ensures WrittenChunk(s, 0) == ""
  {
  }

  /** Every later chunk `i` is the `i`-th group of four counted from the
      right end (group 0 being the last four characters), so the chunks come
      out rightmost group first. */
  lemma WrittenChunkGroup(s: string, i: nat)
    requires 1 <= i < (|s| + 3) / 4
    ensures 4 * i < |s|
    ensures WrittenChunk(s, i) == s[if |s| < 4 * (i + 1) then 0 else |s| - 4 * (i + 1) .. |s| - 4 * i]
  {
  }

  /** As written, the last four characters of a short id do not matter at
      all, even when they are outside the alphabet. */
  lemma {:induction false} LastFourIgnored(s: string, q: string, q': string)
    requires |q| == 4 && |q'| == 4
    ensures BidToMid(s + q) == BidToMid(s + q')
  {
    var a, b := WrittenChunks(s + q), WrittenChunks(s + q');
    assert |a| == |b|;
    forall i | 0 <= i < |a|
      ensures a[i] == b[i]
    {
      if i > 0 {
        WrittenChunkGroup(s + q, i);
        WrittenChunkGroup(s + q', i);
        var lo := if |s| + 4 < 4 * (i + 1) then 0 else |s| + 4 - 4 * (i + 1);
        assert (s + q)[lo..|s| + 4 - 4 * i] == s[lo..|s| + 4 - 4 * i];
        assert (s + q')[lo..|s| + 4 - 4 * i] == s[lo..|s| + 4 - 4 * i];
      }
    }
    assert a == b;
  }

  /** As written, every one- to four-character string decodes to 0,
      whatever its characters, and the empty string raises `ValueError`. */
  lemma BidToMidShort(s: string)
    requires |s| <= 4
    ensures BidToMid(s) == if s == [] then Err(ValueError) else Ok(0)
  {
    if s != [] {
      assert WrittenChunks(s) == [""];
      ConvertEmpty();
      ConvertAllSingle("");
    }
  }

  lemma ConvertAllSingle(chunk: string)
    ensures ConvertAll([chunk]) == Convert(chunk)
  {
    assert [chunk][1..] == [];
    if Convert(chunk).Some? {
      assert Convert(chunk).value + "" == Convert(chunk).value;
    }
  }

  /** The always-empty first chunk converts to seven zeros. */
  lemma ConvertEmpty()
    ensures Convert("") == Some(ZFill("0", 7))
    ensures DecimalValue(ZFill("0", 7)) == 0 && |ZFill("0", 7)| == 7
  {
    assert Digits(0) == "0";
    ZFillValue("0", 7);
  }

  // ---- the decoder the slicing was meant to implement ----

  /** The groups of four counted from the right, each zero filled to seven
      digits, most significant group first. */
  function FixedDigits(s: string): (r: Option<string>)
    ensures r.Some? <==> InAlphabet(s)
    ensures r.Some? ==> AllDigits(r.value)
    decreases |s|
  {
    if |s| <= 4 then Convert(s)
    else
      InAlphabetSplit(s, |s| - 4);
      match (FixedDigits(s[..|s| - 4]), Convert(s[|s| - 4..]))
      case (Some(a), Some(b)) =>
        DecimalValueAppend(a, b);
        Some(a + b)
      case _ => None
  }

  /** `bid_to_mid` with the slicing it describes: `KeyError` on any character
      outside the alphabet, `ValueError` on the empty string. */
  function BidToMidFixed(s: string): (r: Result<nat>)
    ensures r == Err(ValueError) <==> s == []
    ensures r.Ok? <==> s != [] && InAlphabet(s)
    ensures r.Err? && s != [] ==> r == Err(KeyError)
  {
    if s == [] then Err(ValueError)
    else
      match FixedDigits(s)
      case None => Err(KeyError)
      case Some(digits) => Ok(DecimalValue(digits))
  }

  /** `v` in base 62 with no leading zero symbol ("0" for 0). */
  function Base62(v: nat): (t: string)
    ensures 1 <= |t| && InAlphabet(t)
    ensures ChunkValue(t) == Some(v)
  {
    if v < 62 then
      var t := [Symbol(v)];
      assert t[..0] == [];
      t
    else
      var t := Base62(v / 62) + [Symbol(v % 62)];
      assert t[..|t| - 1] == Base62(v / 62);
      t
  }

  lemma {:induction false} Base62Length(v: nat, k: nat)
    requires 1 <= k && v < Pow(62, k)
    ensures |Base62(v)| <= k
  {
    if v >= 62 {
      assert k != 1 by {
        assert Pow(62, 1) == 62;
      }
      assert v / 62 < Pow(62, k - 1) by {
        assert v < 62 * Pow(62, k - 1);
      }
      Base62Length(v / 62, k - 1);
    }
  }

  lemma {:induction false} DigitsLength(n: nat, k: nat)
    requires 1 <= k && n < Pow(10, k)
    ensures |Digits(n)| <= k
  {
    if n >= 10 {
      assert k != 1 by {
        assert Pow(10, 1) == 10;
      }
      assert n / 10 < Pow(10, k - 1) by {
        assert n < 10 * Pow(10, k - 1);
      }
      DigitsLength(n / 10, k - 1);
    }
  }

  /** A leading zero symbol does not change a chunk's value. */
  lemma {:induction false} ChunkValueLeadingZero(t: string)
    ensures ChunkValue("0" + t) == ChunkValue(t)
  {
    if t != [] {
      var init := t[..|t| - 1];
      assert ("0" + t)[..|"0" + t| - 1] == "0" + init;
      ChunkValueLeadingZero(init);
    } else {
      assert ("0" + t)[..0] == [];
    }
  }

  /** Left-pad with the zero symbol to four characters. */
  function Pad4(t: string): (r: string)
    ensures |r| == if |t| < 4 then 4 else |t|
    ensures ChunkValue(r) == ChunkValue(t)
    decreases 4 - |t|
  {
    if |t| >= 4 then t
    else
      ChunkValueLeadingZero(t);
      Pad4("0" + t)
  }

  const Group: nat := 10_000_000

  /** The encoder the decoder is meant to invert: the id in groups of seven
      decimal digits from the right, each written as four base-62 symbols
      except the leading group, which has no padding. */
  function MidToBid(m: nat): (s: string)
    ensures 1 <= |s| && InAlphabet(s)
    ensures m < Group <==> |s| <= 4
  {
    if m < Group then
      GroupFitsFourSymbols(m);
      Base62(m)
    else
      var p, q := MidToBid(m / Group), Pad4(Base62(m % Group));
      GroupFitsFourSymbols(m % Group);
      InAlphabetSplit(p + q, |p|);
      assert (p + q)[..|p|] == p && (p + q)[|p|..] == q;
      p + q
  }

  lemma GroupFitsFourSymbols(v: nat)
    requires v < Group
    ensures |Base62(v)| <= 4
  {
    assert Pow(62, 4) == 14776336;
    Base62Length(v, 4);
  }

  lemma GroupFitsSevenDigits(v: nat)
    requires v < Group
    ensures |ZFill(Digits(v), 7)| == 7
  {
    assert Pow(10, 7) == Group;
    DigitsLength(v, 7);
  }

  /** The corrected decoder recovers every id from its encoding. */
  lemma {:induction false} FixedRoundTrip(m: nat)
    ensures BidToMidFixed(MidToBid(m)) == Ok(m)
  {
    FixedDigitsOfEncoding(m);
  }

  lemma {:induction false} FixedDigitsOfEncoding(m: nat)
    ensures FixedDigits(MidToBid(m)).Some?
    ensures DecimalValue(FixedDigits(MidToBid(m)).value) == m
  {
    if m < Group {
      GroupFitsFourSymbols(m);
      ZFillValue(Digits(m), 7);
    } else {
      var p, r := MidToBid(m / Group), m % Group;
      var q := Pad4(Base62(r));
      GroupFitsFourSymbols(r);
      var s := p + q;
      assert s[..|s| - 4] == p && s[|s| - 4..] == q;
      FixedDigitsOfEncoding(m / Group);
      var a := FixedDigits(p).value;
      var b := ZFill(Digits(r), 7);
      ZFillValue(Digits(r), 7);
      GroupFitsSevenDigits(r);
      assert Convert(q) == Some(b);
      DecimalValueAppend(a, b);
      assert Pow(10, 7) == Group;
      assert DecimalValue(a + b) == (m / Group) * Group + r;
    }
  }

  // ---- the two decoders side by side ----

  /** A five-symbol id: as written the last four symbols are dropped and the
      leading one lands in the lowest group, giving 1 instead of 10000000. */
  lemma WrittenDropsLastGroup()
    ensures BidToMid("10000") == Ok(1)
    ensures BidToMidFixed("10000") == Ok(10_000_000)
  {
    WrittenFiveSymbols();
    FixedFiveSymbols();
  }

  lemma OneSymbol()
    ensures ChunkValue("1") == Some(1)
    ensures Convert("1") == Some(ZFill("1", 7))
    ensures DecimalValue(ZFill("1", 7)) == 1 && |ZFill("1", 7)| == 7
  {
    assert "1"[..0] == [];
    assert Digits(1) == "1";
    ZFillValue("1", 7);
  }

  lemma WrittenFiveSymbols()
    ensures BidToMid("10000") == Ok(1)
  {
    var s := "10000";
    assert WrittenChunk(s, 0) == "";
    assert s[0..1] == "1";
    assert WrittenChunk(s, 1) == "1";
    assert WrittenChunks(s) == ["", "1"];
    ConvertEmpty();
    OneSymbol();
    ConvertAllSingle("1");
    assert ["", "1"][1..] == ["1"];
    var zero, one := ZFill("0", 7), ZFill("1", 7);
    assert ConvertAll(["", "1"]) == Some(zero + one);
    DecimalValueAppend(zero, one);
  }

  /** Leading zero symbols do not change a group: `"0000"` converts like
      the empty chunk. */
  lemma ZeroGroup()
    ensures Convert("0000") == Convert("")
  {
    assert "0" + "" == "0" && "0" + "0" == "00" && "0" + "00" == "000" && "0" + "000" == "0000";
    ChunkValueLeadingZero("");
    ChunkValueLeadingZero("0");
    ChunkValueLeadingZero("00");
    ChunkValueLeadingZero("000");
  }

  lemma FixedFiveDigits()
    ensures FixedDigits("10000") == Some(ZFill("1", 7) + ZFill("0", 7))
  {
    var s := "10000";
    assert s[..|s| - 4] == "1" && s[|s| - 4..] == "0000";
    ZeroGroup();
    ConvertEmpty();
    OneSymbol();
  }

  lemma FixedFiveSymbols()
    ensures BidToMidFixed("10000") == Ok(10_000_000)
  {
    var zero, one := ZFill("0", 7), ZFill("1", 7);
    FixedFiveDigits();
    ConvertEmpty();
    OneSymbol();
    DecimalValueAppend(one, zero);
    assert Pow(10, 7) == 10_000_000;
  }
}
