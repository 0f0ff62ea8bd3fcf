/**
 * The encoding sniffer: an ordered table of byte patterns, each allowed
 * only at offsets that are multiples of a stride, and a first-match-wins
 * scan of a byte buffer that falls back to "UTF-8".
 */
module Sniffer {

  /** An unsigned view of a Java byte; the sniffer only compares bytes for equality. */
  newtype byte = b: int | 0 <= b < 0x100

  /** Integer.MAX_VALUE: as a stride it admits only offset 0 in any Java array. */
  const M: int := 0x7fff_ffff

  /** A stride: every offset tried is a multiple of it. */
  type Stride = d: int | d >= 1 witness 1

  /** One rule of the table (class EncP): a label, a stride and a byte pattern. */
  datatype EncP = EncP(forEncoding: string, div: Stride, pattern: seq<byte>)

  /** The label returned when no rule matches. */
  const DefaultEncoding: string := "UTF-8"

  /** The label of a UTF-8 buffer that starts with a byte-order mark. */
  const Utf8WithBom: string := "UTF-8Y"

  /** The UTF-8 byte-order mark, U+FEFF encoded as in section 6 of RFC 3629. */
  const Utf8Bom: seq<byte> := [0xef, 0xbb, 0xbf]

  /** `(byte)(x & 0xff)`: the low eight bits of an int. */
  function LowByte(x: int): (b: byte)
    ensures (x - b as int) % 0x100 == 0
  {
    (x % 0x100) as byte
  }

  /** The EncP constructor: copies the int pattern into a byte array, keeping the low eight bits of each. */
  method NewEncP(forEncoding: string, div: Stride, pattern: seq<int>) returns (e: EncP)
    ensures e.forEncoding == forEncoding && e.div == div
    ensures |e.pattern| == |pattern|
    ensures forall i :: 0 <= i < |pattern| ==> (pattern[i] - e.pattern[i] as int) % 0x100 == 0
  {
    var pat := new byte[|pattern|];
    for i := 0 to |pattern|
      invariant forall k :: 0 <= k < i ==> (pattern[k] - pat[k] as int) % 0x100 == 0
    {
      pat[i] := LowByte(pattern[i]);
    }
    e := EncP(forEncoding, div, pat[..]);
  }

  /** Two bytes with the same low eight bits are equal. */
  lemma SameLowByte(b: byte, c: byte)
    requires (b as int - c as int) % 0x100 == 0
    ensures b == c
  {
    if b < c {
      ModUnique(b as int - c as int, 0x100, -1, b as int - c as int + 0x100);
    } else {
      ModUnique(b as int - c as int, 0x100, 0, b as int - c as int);
    }
  }

  /**
   * What the constructor gives for a rule of the table, its bytes written
   * as ints in 0..255 as the Java source writes them, is that rule.
   */
  lemma TableBuiltByNewEncP(k: int, e: EncP)
    requires 0 <= k < |Table|
    requires e.forEncoding == Table[k].forEncoding && e.div == Table[k].div
    requires |e.pattern| == |Table[k].pattern|
    requires forall i :: 0 <= i < |e.pattern| ==> (Table[k].pattern[i] as int - e.pattern[i] as int) % 0x100 == 0
    ensures e == Table[k]
  {
    forall i | 0 <= i < |e.pattern| ensures e.pattern[i] == Table[k].pattern[i] {
      SameLowByte(Table[k].pattern[i], e.pattern[i]);
    }
  }

  /** COMMON_ENCODING_PATTERNS, in priority order. */
  const Table: seq<EncP> := [
    // UTF-32 byte-order marks, then ASCII space as a 32-bit unit
    EncP("UTF-32", M, [0xff, 0xfe, 0x00, 0x00]),
    EncP("UTF-32", M, [0x00, 0x00, 0xfe, 0xff]),
    EncP("UTF-32LE", 4, [0x20, 0x00, 0x00, 0x00]),
    EncP("UTF-32BE", 4, [0x00, 0x00, 0x00, 0x20]),
    // UTF-16 byte-order marks (section 3.2 of RFC 2781), then space as a 16-bit unit
    EncP("UTF-16", M, [0xfe, 0xff]),
    EncP("UTF-16", M, [0xff, 0xfe]),
    EncP("UTF-16LE", 2, [0x20, 0x00]),
    EncP("UTF-16BE", 2, [0x00, 0x20]),
    // UTF-8 with byte-order mark, then the lead bytes of Latin-1 supplement chars
    EncP("UTF-8Y", M, [0xef, 0xbb, 0xbf]),
    EncP("UTF-8", 1, [0xc3]),
    EncP("UTF-8", 1, [0xc2]),
    // euro sign in ISO-8859-15
    EncP("ISO-8859-15", 1, [0xa4]),
    // euro sign, umlauts, sharp s and section sign in windows-1252
    EncP("windows-1252", 1, [0x80]),
    EncP("windows-1252", 1, [0xe4]),
    EncP("windows-1252", 1, [0xf6]),
    EncP("windows-1252", 1, [0xfc]),
    EncP("windows-1252", 1, [0xdf]),
    EncP("windows-1252", 1, [0xc4]),
    EncP("windows-1252", 1, [0xd6]),
    EncP("windows-1252", 1, [0xdc]),
    EncP("windows-1252", 1, [0xa7]),
    // the same chars in code page 858
    EncP("IBM00858", 1, [0xd5]),
    EncP("IBM00858", 1, [0x84]),
    EncP("IBM00858", 1, [0x94]),
    EncP("IBM00858", 1, [0x81]),
    EncP("IBM00858", 1, [0xe1]),
    EncP("IBM00858", 1, [0x8e]),
    EncP("IBM00858", 1, [0x99]),
    EncP("IBM00858", 1, [0x9a]),
    EncP("IBM00858", 1, [0xf5])
  ]

  /**
   * The scan of isMatching tries offset `i`: a multiple of the stride,
   * strictly below |data| - |pattern|, where the pattern's bytes follow.
   */
  ghost predicate MatchesAt(p: EncP, data: seq<byte>, i: int) {
    0 <= i < |data| - |p.pattern| && i % p.div == 0 && data[i..i + |p.pattern|] == p.pattern
  }

  ghost predicate Matches(p: EncP, data: seq<byte>) {
    exists i :: MatchesAt(p, data, i)
  }

  lemma ProductSign(m: int, d: Stride)
    ensures m >= 1 ==> d * m >= d
    ensures m <= -1 ==> d * m + d <= 0
  {
    if m >= 1 {
      assert d * m == d * (m - 1) + d;
    } else if m <= -1 {
      assert d * m == d * (m + 1) - d;
    }
  }

  /** Euclidean division is unique: `a % d` is the remainder of any such split of `a`. */
  lemma ModUnique(a: int, d: Stride, q: int, r: int)
    requires a == d * q + r && 0 <= r < d
    ensures a % d == r
  {
    var m := q - a / d;
    assert d * m == d * q - d * (a / d);
    assert d * m == a % d - r;
    ProductSign(m, d);
  }

  lemma NotMultiple(i: int, d: Stride, k: int)
    requires i % d == 0 && i < k < i + d
    ensures k % d != 0
  {
    ModUnique(k, d, i / d, k - i);
  }

  lemma NextMultiple(i: int, d: Stride)
    requires i % d == 0
    ensures (i + d) % d == 0
  {
    assert d * (i / d + 1) == d * (i / d) + d;
    ModUnique(i + d, d, i / d + 1, 0);
  }

  /** EncP.isMatching: does the rule fire on `data`? */
  method IsMatching(p: EncP, data: array<byte>) returns (found: bool)
    ensures found <==> Matches(p, data[..])
  {
    var n := |p.pattern|;
    var i := 0;
    while i < data.Length - n
      invariant 0 <= i && i % p.div == 0
      invariant forall k :: 0 <= k < i ==> !MatchesAt(p, data[..], k)
    {
      var same := true;
      var j := 0;
      while j < n
        invariant 0 <= j <= n
        invariant forall t :: 0 <= t < j ==> p.pattern[t] == data[i + t]
      {
        if p.pattern[j] != data[i + j] {
          same := false;
          break;
        }
        j := j + 1;
      }
      if same {
        assert data[..][i..i + n] == p.pattern;
        assert MatchesAt(p, data[..], i);
        return true;
      }
      assert !MatchesAt(p, data[..], i) by {
        assert data[..][i..i + n][j] != p.pattern[j];
      }
      forall k | i < k < i + p.div ensures !MatchesAt(p, data[..], k) {
        NotMultiple(i, p.div, k);
      }
      NextMultiple(i, p.div);
      i := i + p.div;
    }
    return false;
  }

  /** The position in `rules` of the first rule that fires on `data`, or -1. */
  ghost function FirstMatch(rules: seq<EncP>, data: seq<byte>): (k: int)
    ensures -1 <= k < |rules|
    ensures k >= 0 ==> Matches(rules[k], data)
    ensures forall j :: 0 <= j < |rules| && (k == -1 || j < k) ==> !Matches(rules[j], data)
  {
    if rules == [] then -1
    else if Matches(rules[0], data) then 0
    else
      var k := FirstMatch(rules[1..], data);
      assert forall j :: 1 <= j < |rules| ==> rules[j] == rules[1..][j - 1];
      if k == -1 then -1 else k + 1
  }

  /** Rule `k` fires on `data` and no earlier rule does. */
  ghost predicate FirstFires(rules: seq<EncP>, data: seq<byte>, k: int)
    requires 0 <= k < |rules|
  {
    Matches(rules[k], data) && forall j :: 0 <= j < k ==> !Matches(rules[j], data)
  }

  /** The label determineEncoding returns for `data`. */
  ghost function Detect(data: seq<byte>): string {
    var k := FirstMatch(Table, data);
    if k == -1 then DefaultEncoding else Table[k].forEncoding
  }

  /** The first rule that fires is the one FirstMatch finds. */
  lemma FirstMatchIs(rules: seq<EncP>, data: seq<byte>, k: int)
    requires 0 <= k < |rules| && FirstFires(rules, data, k)
    ensures FirstMatch(rules, data) == k
  {
    var f := FirstMatch(rules, data);
    assert f != -1 && !(f < k) && !(k < f);
  }

  /** The loop of determineEncoding: the position of the first rule in `rules` that fires, or -1. */
  method FirstRule(rules: seq<EncP>, data: array<byte>) returns (k: int)
    ensures k == FirstMatch(rules, data[..])
  {
    k := 0;
    while k < |rules|
      invariant 0 <= k <= |rules|
      invariant forall j :: 0 <= j < k ==> !Matches(rules[j], data[..])
    {
      var hit := IsMatching(rules[k], data);
      if hit {
        FirstMatchIs(rules, data[..], k);
        return;
      }
      k := k + 1;
    }
    k := -1;
  }

  /** determineEncoding: the label of the first rule in table order that fires, else "UTF-8". */
  method DetermineEncoding(data: array<byte>) returns (enc: string)
    ensures enc == Detect(data[..])
  {
    var k := FirstRule(Table, data);
    if k == -1 {
      enc := DefaultEncoding;
    } else {
      enc := Table[k].forEncoding;
    }
  }

  // ---------------------------------------------------------------------
  // Properties of the rule table and of the scan

  /** A byte that may occur in 7-bit ASCII text: neither NUL nor above 0x7f. */
  predicate IsAsciiText(b: byte) { 0x01 <= b <= 0x7f }

  predicate AllAsciiText(data: seq<byte>) {
    forall i :: 0 <= i < |data| ==> IsAsciiText(data[i])
  }

  /**
   * The pattern's first or second byte cannot occur in ASCII text: every
   * rule looks for a NUL byte or a byte above 0x7f.
   */
  predicate Anchored(p: EncP) {
    |p.pattern| >= 1 &&
    (!IsAsciiText(p.pattern[0]) || (|p.pattern| >= 2 && !IsAsciiText(p.pattern[1])))
  }

  lemma TableAnchored()
    ensures forall k :: 0 <= k < |Table| ==> Anchored(Table[k])
  {
  }

  /**
   * With `data` no longer than Integer.MAX_VALUE, the sentinel stride only
   * ever tries offset 0: the rule fires exactly when `data` is longer than
   * the pattern and starts with it.
   */
  lemma SentinelMatchesOnlyAtStart(p: EncP, data: seq<byte>)
    requires p.div == M && |data| <= M
    ensures Matches(p, data) <==> |data| > |p.pattern| && data[..|p.pattern|] == p.pattern
  {
    if Matches(p, data) {
      var i :| MatchesAt(p, data, i);
      ModUnique(i, M, 0, i);
    }
    if |data| > |p.pattern| && data[..|p.pattern|] == p.pattern {
      assert MatchesAt(p, data, 0);
    }
  }

  /**
   * For every rule of the table and every offset the scan body runs on, the
   * Java step `i += div` stays within Integer.MAX_VALUE, so the unbounded
   * offsets of this model are the offsets the Java loop visits.
   */
  lemma TableStepNeverOverflows(k: int, n: int, i: int)
    requires 0 <= k < |Table| && n <= M
    requires 0 <= i < n - |Table[k].pattern| && i % Table[k].div == 0
    ensures i + Table[k].div <= M
  {
    assert Table[k].div == M || Table[k].div <= |Table[k].pattern|;
    if Table[k].div == M {
      ModUnique(i, M, 0, i);
    }
  }

  /**
   * Only bytes before the last one are ever compared: the scan stops
   * strictly below |data| - |pattern|.
   */
  lemma ScanNeverReachesLastByte(p: EncP, data: seq<byte>, i: int)
    requires 0 <= i < |data| - |p.pattern|
    ensures data[..|data| - 1][i..i + |p.pattern|] == data[i..i + |p.pattern|]
  {
  }

  /** An anchored rule cannot fire on a buffer whose bytes before the last are all ASCII text. */
  lemma AnchoredMissesAscii(p: EncP, data: seq<byte>)
    requires Anchored(p) && |data| >= 1 && AllAsciiText(data[..|data| - 1])
    ensures !Matches(p, data)
  {
    forall i ensures !MatchesAt(p, data, i) {
      if 0 <= i < |data| - |p.pattern| {
        ScanNeverReachesLastByte(p, data, i);
        var w := data[i..i + |p.pattern|];
        assert IsAsciiText(w[0]) by { assert w[0] == data[..|data| - 1][i]; }
        assert |p.pattern| >= 2 ==> IsAsciiText(w[1]) by {
          if |p.pattern| >= 2 { assert w[1] == data[..|data| - 1][i + 1]; }
        }
      }
    }
  }

  /**
   * A buffer whose bytes, except possibly the last, are all ASCII text is
   * labelled "UTF-8" whatever its last byte is; in particular every
   * buffer of length at most one is.
   */
  lemma {:induction false} AsciiBeforeLastIsUtf8(data: seq<byte>)
    requires |data| <= 1 || AllAsciiText(data[..|data| - 1])
    ensures Detect(data) == DefaultEncoding
  {
    TableAnchored();
    forall k | 0 <= k < |Table| ensures !Matches(Table[k], data) {
      if |data| == 0 {
        assert forall i :: !MatchesAt(Table[k], data, i);
      } else {
        AnchoredMissesAscii(Table[k], data);
      }
    }
  }

  /** A buffer of ASCII text is labelled "UTF-8". */
  lemma AsciiIsUtf8(data: seq<byte>)
    requires AllAsciiText(data)
    ensures Detect(data) == DefaultEncoding
  {
    if |data| > 1 {
      assert AllAsciiText(data[..|data| - 1]);
    }
    AsciiBeforeLastIsUtf8(data);
  }

  /** A rule one of whose pattern bytes does not occur in `data` cannot fire. */
  lemma AbsentByteBlocks(p: EncP, data: seq<byte>, j: int)
    requires 0 <= j < |p.pattern| && p.pattern[j] !in data
    ensures !Matches(p, data)
  {
    forall i ensures !MatchesAt(p, data, i) {
      if 0 <= i < |data| - |p.pattern| {
        assert data[i..i + |p.pattern|][j] == data[i + j];
      }
    }
  }

  /**
   * A rule that can only be tried at offset 0, because the buffer is at most
   * one byte longer than its pattern, does not fire when the first bytes differ.
   */
  lemma FirstByteBlocks(p: EncP, data: seq<byte>)
    requires p.pattern != [] && data != [] && |data| <= |p.pattern| + 1 && data[0] != p.pattern[0]
    ensures !Matches(p, data)
  {
    forall i ensures !MatchesAt(p, data, i) {
      if 0 <= i < |data| - |p.pattern| {
        assert data[i..i + |p.pattern|][0] == data[i];
      }
    }
  }

  /** A rule whose pattern is at least as long as `data` cannot fire. */
  lemma LongPatternBlocks(p: EncP, data: seq<byte>)
    requires |data| <= |p.pattern|
    ensures !Matches(p, data)
  {
  }

  /** Only the rule at index 8 is labelled "UTF-8Y". */
  lemma OnlyBomRuleIsUtf8Y(k: int)
    requires 0 <= k < |Table| && Table[k].forEncoding == Utf8WithBom
    ensures k == 8
  {
  }

  /**
   * A "UTF-8Y" label is only given to a buffer of at least four bytes that
   * starts with the UTF-8 byte-order mark.
   */
  lemma Utf8YMeansBom(data: seq<byte>)
    requires |data| <= M && Detect(data) == Utf8WithBom
    ensures |data| >= 4 && data[..3] == Utf8Bom
  {
    var k := FirstMatch(Table, data);
    assert k != -1;
    OnlyBomRuleIsUtf8Y(k);
    SentinelMatchesOnlyAtStart(Table[8], data);
  }

  /** Each of the eight UTF-32 and UTF-16 rules needs a 0x00, 0xfe or 0xff byte. */
  lemma WideRulesNeedNulOrFf(data: seq<byte>)
    requires 0x00 !in data && 0xfe !in data && 0xff !in data
    ensures forall k :: 0 <= k < 8 ==> !Matches(Table[k], data)
  {
    AbsentByteBlocks(Table[0], data, 0);
    AbsentByteBlocks(Table[1], data, 0);
    AbsentByteBlocks(Table[2], data, 1);
    AbsentByteBlocks(Table[3], data, 0);
    AbsentByteBlocks(Table[4], data, 0);
    AbsentByteBlocks(Table[5], data, 0);
    AbsentByteBlocks(Table[6], data, 1);
    AbsentByteBlocks(Table[7], data, 0);
  }

  /** Rule `k` fires and no earlier one does, so its label is the one detected. */
  lemma FirstFiresDetects(data: seq<byte>, k: int)
    requires 0 <= k < |Table| && FirstFires(Table, data, k)
    ensures Detect(data) == Table[k].forEncoding
  {
  }

  /**
   * The UTF-8 byte-order mark followed by at least one byte of ASCII text
   * is labelled "UTF-8Y": none of the UTF-32 and UTF-16 rules before it
   * can fire.
   */
  lemma BomThenAsciiIsUtf8Y(text: seq<byte>)
    requires 1 <= |text| <= M - 3 && AllAsciiText(text)
    ensures Detect(Utf8Bom + text) == Utf8WithBom
  {
    var data := Utf8Bom + text;
    forall i | 0 <= i < |data| ensures data[i] != 0x00 && data[i] != 0xfe && data[i] != 0xff {
      if i >= 3 { assert data[i] == text[i - 3]; }
    }
    WideRulesNeedNulOrFf(data);
    assert data[..3] == Utf8Bom;
    SentinelMatchesOnlyAtStart(Table[8], data);
    FirstFiresDetects(data, 8);
  }

  /** The byte-order mark alone is not recognised: the scan never tries the offset where it would end the buffer. */
  lemma BomAloneIsUtf8()
    ensures Detect(Utf8Bom) == DefaultEncoding
  {
    NoRuleFiresOnBom(Utf8Bom);
  }

  lemma NoRuleFiresOnBom(data: seq<byte>)
    requires data == Utf8Bom
    ensures forall k :: 0 <= k < |Table| ==> !Matches(Table[k], data)
  {
    forall k | 0 <= k < |Table| ensures !Matches(Table[k], data) {
      if k < 4 || k == 8 {
        LongPatternBlocks(Table[k], data);
      } else {
        AbsentByteBlocks(Table[k], data, 0);
      }
    }
  }

  /** No rule before the windows-1252 "ä" rule fires on "ä" followed by one ASCII byte, and that rule does. */
  lemma UmlautFirst(data: seq<byte>)
    requires data == [0xe4, 0x41]
    ensures FirstFires(Table, data, 13)
  {
    forall k | 0 <= k < 13 ensures !Matches(Table[k], data) {
      if k < 9 {
        LongPatternBlocks(Table[k], data);
      } else {
        AbsentByteBlocks(Table[k], data, 0);
      }
    }
    assert MatchesAt(Table[13], data, 0);
  }

  /**
   * A windows-1252 "ä" (0xe4) is recognised before an ASCII letter but not
   * as the last byte of the buffer.
   */
  lemma UmlautPosition()
    ensures Detect([0xe4, 0x41]) == "windows-1252"
    ensures Detect([0x41, 0xe4]) == DefaultEncoding
  {
    UmlautBeforeLetter([0xe4, 0x41]);
    UmlautAtEnd([0x41, 0xe4]);
  }

  lemma UmlautBeforeLetter(data: seq<byte>)
    requires data == [0xe4, 0x41]
    ensures Detect(data) == "windows-1252"
  {
    UmlautFirst(data);
    FirstFiresDetects(data, 13);
  }

  lemma UmlautAtEnd(data: seq<byte>)
    requires data == [0x41, 0xe4]
    ensures Detect(data) == DefaultEncoding
  {
    AsciiBeforeLastIsUtf8(data);
  }

  /** The UTF-32 and UTF-16 byte-order-mark rules need a 0xfe or 0xff byte. */
  lemma NulTextHasNoMark(data: seq<byte>)
    requires data == [0x61, 0x62, 0x20, 0x00, 0x00]
    ensures !Matches(Table[0], data) && !Matches(Table[1], data)
    ensures !Matches(Table[4], data) && !Matches(Table[5], data)
  {
    AbsentByteBlocks(Table[0], data, 0);
    AbsentByteBlocks(Table[1], data, 2);
    AbsentByteBlocks(Table[4], data, 0);
    AbsentByteBlocks(Table[5], data, 0);
  }

  /** The UTF-32 rules can only be tried at offset 0 of a five-byte buffer. */
  lemma NulTextIsNotUtf32(data: seq<byte>)
    requires data == [0x61, 0x62, 0x20, 0x00, 0x00]
    ensures !Matches(Table[2], data) && !Matches(Table[3], data)
  {
    FirstByteBlocks(Table[2], data);
    FirstByteBlocks(Table[3], data);
  }

  /** No rule before UTF-16LE fires on "ab " followed by two NUL bytes, and that rule does, at offset 2. */
  lemma TrailingNulsFirst(data: seq<byte>)
    requires data == [0x61, 0x62, 0x20, 0x00, 0x00]
    ensures FirstFires(Table, data, 6)
  {
    NulTextHasNoMark(data);
    NulTextIsNotUtf32(data);
    assert MatchesAt(Table[6], data, 2);
  }

  /** Text whose last two bytes are NUL can be taken for UTF-16LE. */
  lemma TrailingNulsLookUtf16(data: seq<byte>)
    requires data == [0x61, 0x62, 0x20, 0x00, 0x00]
    ensures Detect(data) == "UTF-16LE"
  {
    TrailingNulsFirst(data);
    FirstFiresDetects(data, 6);
  }
}
