/** Byte-bounded JSONL records (common/runtime/jsonl.py). Strings are sequences of Unicode
    scalar values; UTF-8 is section 3 of RFC 3629. */
module Jsonl {
  import opened Search

  type Byte = b: int | 0 <= b < 256

  const DETAIL_CAP_BYTES := 1024
  const LINE_CAP_BYTES := 2048
  const TRUNCATION_SUFFIX := "...(truncated)"

  // ---- UTF-8 ----

  function Width(c: char): (w: nat)
    ensures 1 <= w <= 4
  {
    var n := c as int;
    if n < 0x80 then 1 else if n < 0x800 then 2 else if n < 0x10000 then 3 else 4
  }

  function Low(n: int): Byte {
    0x80 + n % 64
  }

  function EncodeChar(c: char): (r: seq<Byte>)
    ensures |r| == Width(c)
  {
    var n := c as int;
    if n < 0x80 then [n]
    else if n < 0x800 then [0xC0 + n / 64, Low(n)]
    else if n < 0x10000 then [0xE0 + n / 64 / 64, Low(n / 64), Low(n)]
    else [0xF0 + n / 64 / 64 / 64, Low(n / 64 / 64), Low(n / 64), Low(n)]
  }

  function Encode(s: string): seq<Byte> {
    if s == "" then [] else EncodeChar(s[0]) + Encode(s[1..])
  }

  predicate Continues(b: Byte) {
    0x80 <= b < 0xC0
  }

  /** The character a sequence of the given width stands for; None when it is overlong, a
      surrogate or out of range. */
  function Scalar(n: int, least: nat, width: nat): Option<(char, nat)> {
    if least <= n < 0xD800 || (least <= n && 0xE000 <= n < 0x110000) then Some((n as char, width)) else None
  }

  function Digit(b: Byte): int {
    var n: int := b;
    n - 0x80
  }

  /** The number written in base 64 by a lead digit and continuation bytes. */
  function Payload(high: int, rest: seq<Byte>): int {
    if rest == [] then high else Payload(high, rest[..|rest| - 1]) * 64 + Digit(rest[|rest| - 1])
  }

  predicate AllContinue(bytes: seq<Byte>) {
    forall i :: 0 <= i < |bytes| ==> Continues(bytes[i])
  }

  /** The character at the front of the bytes, if they start with a well-formed one. */
  function DecodeOne(bytes: seq<Byte>): Option<(char, nat)>
    requires bytes != []
  {
    var lead: int := bytes[0];
    if lead < 0x80 then Some((lead as char, 1))
    else if 0xC0 <= lead < 0xE0 && |bytes| >= 2 && AllContinue(bytes[1..2])
    then Scalar(Payload(lead - 0xC0, bytes[1..2]), 0x80, 2)
    else if 0xE0 <= lead < 0xF0 && |bytes| >= 3 && AllContinue(bytes[1..3])
      then Scalar(Payload(lead - 0xE0, bytes[1..3]), 0x800, 3)
      else if 0xF0 <= lead < 0xF8 && |bytes| >= 4 && AllContinue(bytes[1..4])
        then Scalar(Payload(lead - 0xF0, bytes[1..4]), 0x10000, 4)
        else None
  }

  /** bytes.decode("utf-8", errors="ignore") */
  function DecodeIgnore(bytes: seq<Byte>): string
    decreases |bytes|
  {
    if bytes == [] then ""
    else
      match DecodeOne(bytes)
      case Some((c, width)) => if 0 < width <= |bytes| then [c] + DecodeIgnore(bytes[width..]) else ""
      case None => DecodeIgnore(bytes[1..])
  }

  lemma PayloadDigit(n: int, rest: seq<Byte>, digit: nat)
    requires Payload(n, rest) == digit / 64
    ensures Payload(n, rest + [Low(digit)]) == digit
  {
    assert (rest + [Low(digit)])[..|rest|] == rest;
  }

  lemma OneDigit(n: nat)
    ensures Payload(n / 64, [Low(n)]) == n
  {
    PayloadDigit(n / 64, [], n);
    assert [] + [Low(n)] == [Low(n)];
  }

  lemma TwoDigits(n: nat)
    ensures Payload(n / 64 / 64, [Low(n / 64), Low(n)]) == n
  {
    OneDigit(n / 64);
    PayloadDigit(n / 64 / 64, [Low(n / 64)], n);
    assert [Low(n / 64)] + [Low(n)] == [Low(n / 64), Low(n)];
  }

  lemma ThreeDigits(n: nat)
    ensures Payload(n / 64 / 64 / 64, [Low(n / 64 / 64), Low(n / 64), Low(n)]) == n
  {
    TwoDigits(n / 64);
    PayloadDigit(n / 64 / 64 / 64, [Low(n / 64 / 64), Low(n / 64)], n);
    assert [Low(n / 64 / 64), Low(n / 64)] + [Low(n)] == [Low(n / 64 / 64), Low(n / 64), Low(n)];
  }

  lemma DecodeEncoded(c: char, rest: seq<Byte>)
    ensures DecodeOne(EncodeChar(c) + rest) == Some((c, Width(c)))
  {
    var n := c as int;
    var code := EncodeChar(c);
    var bytes := code + rest;
    assert bytes[1..Width(c)] == code[1..];
    assert bytes[0] == code[0];
    if n >= 0x10000 {
      ThreeDigits(n);
      assert code[1..] == [Low(n / 64 / 64), Low(n / 64), Low(n)];
    } else if n >= 0x800 {
      TwoDigits(n);
      assert code[1..] == [Low(n / 64), Low(n)];
    } else if n >= 0x80 {
      OneDigit(n);
      assert code[1..] == [Low(n)];
    }
  }

  lemma {:induction false} ContinuationsDecodeToNothing(bytes: seq<Byte>)
    requires forall i :: 0 <= i < |bytes| ==> Continues(bytes[i])
    ensures DecodeIgnore(bytes) == ""
  {
    if bytes != [] {
      ContinuationsDecodeToNothing(bytes[1..]);
    }
  }

  /** The bytes of a character that was cut short are dropped. */
  lemma CutCharDecodesToNothing(c: char, k: nat)
    requires k < Width(c)
    ensures DecodeIgnore(EncodeChar(c)[..k]) == ""
  {
    if k > 0 {
      var cut := EncodeChar(c)[..k];
      assert DecodeOne(cut) == None;
      ContinuationsDecodeToNothing(cut[1..]);
    }
  }

  /** How many leading characters of s fit into n bytes. */
  function Fitting(s: string, n: nat): (k: nat)
    ensures k <= |s|
  {
    if s == "" || Width(s[0]) > n then 0 else 1 + Fitting(s[1..], n - Width(s[0]))
  }

  /** Decoding a byte prefix keeps exactly the characters that fit whole. */
  lemma {:induction false} DecodeClipped(s: string, n: nat)
    requires n <= |Encode(s)|
    ensures DecodeIgnore(Encode(s)[..n]) == s[..Fitting(s, n)]
  {
    if s != "" {
      var head, tail := EncodeChar(s[0]), Encode(s[1..]);
      if Width(s[0]) > n {
        assert Encode(s)[..n] == head[..n];
        CutCharDecodesToNothing(s[0], n);
      } else {
        var m := n - Width(s[0]);
        assert Encode(s)[..n] == head + tail[..m];
        DecodeEncoded(s[0], tail[..m]);
        assert (head + tail[..m])[Width(s[0])..] == tail[..m];
        DecodeClipped(s[1..], m);
      }
    }
  }

  lemma {:induction false} EncodeConcat(a: string, b: string)
    ensures Encode(a + b) == Encode(a) + Encode(b)
  {
    if a == "" {
      assert a + b == b;
    } else {
      assert (a + b)[1..] == a[1..] + b;
      EncodeConcat(a[1..], b);
    }
  }

  /** Fitting is the greatest count that fits. */
  lemma {:induction false} FittingIsLongest(s: string, n: nat)
    ensures |Encode(s[..Fitting(s, n)])| <= n
    ensures Fitting(s, n) < |s| ==> |Encode(s[..Fitting(s, n) + 1])| > n
    ensures n >= |Encode(s)| ==> Fitting(s, n) == |s|
  {
    if s != "" && Width(s[0]) <= n {
      var k := Fitting(s[1..], n - Width(s[0]));
      FittingIsLongest(s[1..], n - Width(s[0]));
      assert s[..k + 1][1..] == s[1..][..k];
      if k + 1 < |s| {
        assert s[..k + 2][1..] == s[1..][..k + 1];
      }
    } else if s != "" {
      assert s[..1][1..] == "";
    }
  }

  lemma {:induction false} FittingGrows(s: string, m: nat, n: nat)
    requires m <= n
    ensures Fitting(s, m) <= Fitting(s, n)
  {
    if s != "" && Width(s[0]) <= m {
      FittingGrows(s[1..], m - Width(s[0]), n - Width(s[0]));
    }
  }

  // ---- _truncate_utf8 ----

  function TruncateUtf8(text: string, maxBytes: nat): string {
    var raw := Encode(text);
    if |raw| <= maxBytes then text
    else if maxBytes <= |TRUNCATION_SUFFIX| then TRUNCATION_SUFFIX[..maxBytes]
    else DecodeIgnore(raw[..maxBytes - |TRUNCATION_SUFFIX|]) + TRUNCATION_SUFFIX
  }

  lemma {:induction false} AsciiBytes(s: string)
    requires forall i :: 0 <= i < |s| ==> s[i] as int < 0x80
    ensures |Encode(s)| == |s|
  {
    if s != "" {
      AsciiBytes(s[1..]);
    }
  }

  lemma SuffixBytes(k: nat)
    requires k <= |TRUNCATION_SUFFIX|
    ensures |Encode(TRUNCATION_SUFFIX[..k])| == k && Escape(TRUNCATION_SUFFIX[..k]) == TRUNCATION_SUFFIX[..k]
  {
    AsciiBytes(TRUNCATION_SUFFIX[..k]);
    PlainEscape(TRUNCATION_SUFFIX[..k]);
  }

  lemma CutShape(text: string, maxBytes: nat)
    requires |Encode(text)| > maxBytes > |TRUNCATION_SUFFIX|
    ensures TruncateUtf8(text, maxBytes) == text[..Fitting(text, maxBytes - |TRUNCATION_SUFFIX|)] + TRUNCATION_SUFFIX
  {
    DecodeClipped(text, maxBytes - |TRUNCATION_SUFFIX|);
  }

  lemma SizeWithSuffix(s: string)
    ensures |Encode(s + TRUNCATION_SUFFIX)| == |Encode(s)| + |TRUNCATION_SUFFIX|
  {
    WholeSuffix();
    EncodeConcat(s, TRUNCATION_SUFFIX);
  }

  /** A cut text keeps the longest whole-character prefix for which the suffix still fits. */
  lemma CutKeepsLongest(text: string, maxBytes: nat)
    requires |Encode(text)| > maxBytes > |TRUNCATION_SUFFIX|
    ensures var k := Fitting(text, maxBytes - |TRUNCATION_SUFFIX|);
            && TruncateUtf8(text, maxBytes) == text[..k] + "...(truncated)"
            && |Encode(text[..k] + TRUNCATION_SUFFIX)| <= maxBytes
            && k < |text| && |Encode(text[..k + 1] + TRUNCATION_SUFFIX)| > maxBytes
  {
    var room := maxBytes - |TRUNCATION_SUFFIX|;
    var k := Fitting(text, room);
    CutShape(text, maxBytes);
    FittingIsLongest(text, room);
    SizeWithSuffix(text[..k]);
    FittingIsProper(text, room);
    SizeWithSuffix(text[..k + 1]);
  }

  lemma FittingIsProper(text: string, n: nat)
    requires n < |Encode(text)|
    ensures Fitting(text, n) < |text|
  {
    FittingIsLongest(text, n);
    assert text[..|text|] == text;
  }

  lemma WholeSuffix()
    ensures |TRUNCATION_SUFFIX| == 14 && |Encode(TRUNCATION_SUFFIX)| == 14 && Cost(TRUNCATION_SUFFIX) == 14
  {
    assert TRUNCATION_SUFFIX[..14] == TRUNCATION_SUFFIX;
    SuffixBytes(14);
  }

  /** The result fits the cap, and a text that fits is left alone. */
  lemma TruncationFits(text: string, maxBytes: nat)
    ensures |Encode(TruncateUtf8(text, maxBytes))| <= maxBytes
    ensures |Encode(text)| <= maxBytes ==> TruncateUtf8(text, maxBytes) == text
  {
    WholeSuffix();
    if |Encode(text)| > maxBytes > |TRUNCATION_SUFFIX| {
      CutKeepsLongest(text, maxBytes);
    } else if |Encode(text)| > maxBytes {
      SuffixBytes(maxBytes);
    }
  }

  // ---- json.dumps of a string, with ensure_ascii=False ----

  function Hex(n: int): char
    requires 0 <= n < 16
  {
    if n < 10 then '0' + n as char else 'a' + (n - 10) as char
  }

  function EscapeChar(c: char): (r: string)
    ensures r != "" && '\n' !in r
  {
    if c == '"' then "\\\""
    else if c == '\\' then "\\\\"
    else if c == '\n' then "\\n"
    else if c == '\r' then "\\r"
    else if c == '\t' then "\\t"
    else if c as int == 8 then "\\b"
    else if c as int == 12 then "\\f"
    else if c as int < 0x20 then "\\u00" + [Hex(c as int / 16), Hex(c as int % 16)]
    else [c]
  }

  function Escape(s: string): (r: string)
    ensures '\n' !in r
  {
    if s == "" then "" else EscapeChar(s[0]) + Escape(s[1..])
  }

  lemma {:induction false} PlainEscape(s: string)
    requires forall i :: 0 <= i < |s| ==> s[i] != '"' && s[i] != '\\' && s[i] as int >= 0x20
    ensures Escape(s) == s
  {
    if s != "" {
      PlainEscape(s[1..]);
    }
  }

  lemma {:induction false} EscapeConcat(a: string, b: string)
    ensures Escape(a + b) == Escape(a) + Escape(b)
  {
    if a == "" {
      assert a + b == b;
    } else {
      assert (a + b)[1..] == a[1..] + b;
      EscapeConcat(a[1..], b);
    }
  }

  /** Bytes of s inside a JSON string. */
  function Cost(s: string): nat {
    |Encode(Escape(s))|
  }

  lemma CostConcat(a: string, b: string)
    ensures Cost(a + b) == Cost(a) + Cost(b)
  {
    EscapeConcat(a, b);
    EncodeConcat(Escape(a), Escape(b));
  }

  lemma {:induction false} CostAtLeastBytes(s: string)
    ensures Cost(s) >= |Encode(s)|
  {
    if s != "" {
      CostAtLeastBytes(s[1..]);
      EncodeConcat(EscapeChar(s[0]), Escape(s[1..]));
      EscapeCharBytes(s[0]);
    }
  }

  lemma EscapeCharBytes(c: char)
    ensures |Encode(EscapeChar(c))| >= Width(c)
  {
    var e := EscapeChar(c);
    assert Encode(e) == EncodeChar(e[0]) + Encode(e[1..]);
  }

  // ---- append_jsonl ----

  lemma {:induction false} PrefixCost(s: string, i: nat, j: nat)
    requires i <= j <= |s|
    ensures Cost(s[..i]) <= Cost(s[..j])
  {
    assert s[..j] == s[..i] + s[i..j];
    CostConcat(s[..i], s[i..j]);
  }

  lemma CutCost(text: string, maxBytes: nat)
    requires |Encode(text)| > maxBytes
    ensures Cost(TruncateUtf8(text, maxBytes)) ==
            if maxBytes <= 14 then maxBytes else Cost(text[..Fitting(text, maxBytes - 14)]) + 14
  {
    WholeSuffix();
    if maxBytes <= 14 {
      SuffixBytes(maxBytes);
    } else {
      CutKeepsLongest(text, maxBytes);
      CostConcat(text[..Fitting(text, maxBytes - 14)], TRUNCATION_SUFFIX);
    }
  }

  /** Cutting text at maxBytes never costs more than the text itself. */
  lemma CutCostsLess(text: string, maxBytes: nat)
    requires |Encode(text)| > maxBytes
    ensures Cost(TruncateUtf8(text, maxBytes)) <= Cost(text)
  {
    CutCost(text, maxBytes);
    if maxBytes > 14 {
      var k := Fitting(text, maxBytes - 14);
      FittingIsLongest(text, maxBytes - 14);
      RestCost(text, k);
    } else {
      CostAtLeastBytes(text);
    }
  }

  /** What is cut off costs at least its bytes. */
  lemma RestCost(text: string, k: nat)
    requires k <= |text|
    ensures Cost(text) >= Cost(text[..k]) + (|Encode(text)| - |Encode(text[..k])|)
  {
    assert text == text[..k] + text[k..];
    CostConcat(text[..k], text[k..]);
    EncodeConcat(text[..k], text[k..]);
    CostAtLeastBytes(text[k..]);
  }

  /** A larger cap never makes the serialised detail smaller, whatever has to be escaped. */
  lemma CostGrows(text: string, m: nat, n: nat)
    requires m <= n
    ensures Cost(TruncateUtf8(text, m)) <= Cost(TruncateUtf8(text, n))
  {
    if |Encode(text)| <= n {
      if |Encode(text)| > m {
        CutCostsLess(text, m);
      }
    } else {
      CutCost(text, m);
      CutCost(text, n);
      if m > 14 {
        FittingGrows(text, m - 14, n - 14);
        PrefixCost(text, Fitting(text, m - 14), Fitting(text, n - 14));
      }
    }
  }

  /** One record: the serialised text before and after the detail string, if it has one. */
  datatype Record = Record(before: string, detail: Option<string>, after: string)

  function Serialise(record: Record): string {
    record.before + (if record.detail.Some? then "\"" + Escape(record.detail.value) + "\"" else "") + record.after
    + "\n"
  }

  function Line(record: Record): seq<Byte> {
    Encode(Serialise(record))
  }

  lemma LineSize(record: Record)
    ensures |Line(record)| == |Encode(record.before)| + |Encode(record.after)| + 1
                              + if record.detail.Some? then Cost(record.detail.value) + 2 else 0
  {
    var middle := if record.detail.Some? then "\"" + Escape(record.detail.value) + "\"" else "";
    EncodeConcat(record.before + middle + record.after, "\n");
    EncodeConcat(record.before + middle, record.after);
    EncodeConcat(record.before, middle);
    assert |Encode("\n")| == 1 by { AsciiBytes("\n"); }
    if record.detail.Some? {
      EncodeConcat("\"" + Escape(record.detail.value), "\"");
      EncodeConcat("\"", Escape(record.detail.value));
      assert |Encode("\"")| == 1 by { AsciiBytes("\""); }
    }
  }

  function WithDetail(record: Record, text: string): Record {
    record.(detail := Some(text))
  }

  predicate LineFits(record: Record) {
    |Line(record)| <= LINE_CAP_BYTES
  }

  function WithCap(record: Record, text: string, cap: nat): Record {
    WithDetail(record, TruncateUtf8(text, cap))
  }

  lemma LineGrows(record: Record, text: string, m: nat, n: nat)
    requires m <= n
    ensures |Line(WithCap(record, text, m))| <= |Line(WithCap(record, text, n))|
  {
    CostGrows(text, m, n);
    LineSize(WithCap(record, text, m));
    LineSize(WithCap(record, text, n));
  }

  predicate Fits(record: Record, text: string, cap: nat) {
    LineFits(WithCap(record, text, cap))
  }

  /** raw is the line for the longest truncation of text that fits. */
  ghost predicate LongestLine(record: Record, text: string, raw: seq<Byte>) {
    exists cap :: LargestCap(record, text, cap) && raw == Line(WithCap(record, text, cap))
  }

  ghost predicate LargestCap(record: Record, text: string, cap: nat) {
    cap <= |Encode(text)| && Fits(record, text, cap) && forall n :: cap < n <= |Encode(text)| ==> !Fits(record, text, n)
  }

  lemma FitsBelow(record: Record, text: string, cap: nat, n: nat)
    requires cap <= n && Fits(record, text, n)
    ensures Fits(record, text, cap)
  {
    LineGrows(record, text, cap, n);
  }

  class JsonlFile {
    var lines: seq<seq<Byte>>

    constructor ()
      ensures lines == []
    {
      lines := [];
    }

    /** append_jsonl; false where the source raises ValueError. A record with a string detail is
        refused exactly when it would be too long with an empty one. */
    method Append(record: Record) returns (ok: bool)
      modifies this
      ensures ok == LineFits(if record.detail.Some? then WithDetail(record, "") else record)
      ensures !ok ==> lines == old(lines)
      ensures ok ==> |lines| == |old(lines)| + 1 && lines[..|old(lines)|] == old(lines)
      ensures ok ==> |lines[|old(lines)|]| <= LINE_CAP_BYTES == 2048
      ensures ok && record.detail.None? ==> lines[|old(lines)|] == Line(record)
      ensures ok && record.detail.Some? ==>
                LongestLine(record, TruncateUtf8(record.detail.value, 1024), lines[|old(lines)|])
    {
      var raw;
      if record.detail.Some? {
        raw := BoundedLine(record, TruncateUtf8(record.detail.value, DETAIL_CAP_BYTES));
      } else {
        raw := Line(record);
      }
      if |raw| > LINE_CAP_BYTES {
        return false;
      }
      lines := lines + [raw];
      ok := true;
    }

    /** The line with the whole text if it fits, else the binary search. */
    method BoundedLine(record: Record, text: string) returns (raw: seq<Byte>)
      ensures |raw| <= LINE_CAP_BYTES <==> LineFits(WithDetail(record, ""))
      ensures |raw| <= LINE_CAP_BYTES ==> LongestLine(record, text, raw)
    {
      CapEnds(record, text);
      ghost var limit := |Encode(text)|;
      raw := Line(WithDetail(record, text));
      if |raw| <= LINE_CAP_BYTES {
        FitsBelow(record, text, 0, limit);
        assert LargestCap(record, text, limit);
        return;
      }
      raw := LongestThatFits(record, text);
    }

    method LongestThatFits(record: Record, text: string) returns (raw: seq<Byte>)
      requires !Fits(record, text, |Encode(text)|)
      ensures |raw| <= LINE_CAP_BYTES <==> LineFits(WithDetail(record, ""))
      ensures |raw| <= LINE_CAP_BYTES ==> LongestLine(record, text, raw)
    {
      ghost var limit := |Encode(text)|;
      ghost var fits := seq(limit + 1, n requires 0 <= n => Fits(record, text, n));
      ghost var cuts := seq(limit + 2, n requires 0 <= n => BestOf(text, n));
      var best, lo := SearchCap(record, text, |Encode(text)|, fits, cuts);
      raw := Line(WithDetail(record, best));
      SearchDone(record, text, lo);
    }

    /** The binary search itself. */
    method SearchCap(record: Record, text: string, limit: nat, ghost fits: seq<bool>, ghost cuts: seq<string>)
      returns (best: string, ghost cap: nat)
      requires Tabulated(record, text, fits, cuts) && |fits| == limit + 1 && !fits[limit] && cuts[0] == ""
      ensures cap <= limit && best == cuts[cap] && !fits[cap] && (cap > 0 ==> fits[cap - 1])
    {
      var lo: nat, hi: int := 0, limit;
      best := "";
      while lo <= hi
        invariant Bracketed(fits, lo, hi) && best == cuts[lo]
      {
        var mid := (lo + hi) / 2;
        var cut, short := TryCap(record, text, mid, fits, cuts);
        if short {
          best, lo := cut, mid + 1;
        } else {
          hi := mid - 1;
        }
      }
      cap := lo;
    }

    method TryCap(record: Record, text: string, cap: nat, ghost fits: seq<bool>, ghost cuts: seq<string>)
      returns (cut: string, short: bool)
      requires Tabulated(record, text, fits, cuts) && cap < |fits|
      ensures cut == cuts[cap + 1] && short == fits[cap]
    {
      cut := TruncateUtf8(text, cap);
      short := LineFits(WithDetail(record, cut));
      assert cuts[cap + 1] == BestOf(text, cap + 1);
      assert fits[cap] == Fits(record, text, cap);
    }
  }

  /** fits says which caps fit, and cuts what the text becomes below each cap. */
  ghost predicate Tabulated(record: Record, text: string, fits: seq<bool>, cuts: seq<string>) {
    && |cuts| == |fits| + 1
    && (forall n {:trigger Fits(record, text, n)} :: 0 <= n < |fits| ==> fits[n] == Fits(record, text, n))
    && (forall n {:trigger BestOf(text, n)} :: 0 <= n < |cuts| ==> cuts[n] == BestOf(text, n))
  }

  /** What the binary search knows: the cap below lo fits, or none was tried, and nothing above hi. */
  ghost predicate Bracketed(fits: seq<bool>, lo: int, hi: int) {
    && fits != [] && 0 <= lo <= hi + 1 <= |fits|
    && (lo > 0 ==> fits[lo - 1])
    && !fits[if hi + 1 < |fits| then hi + 1 else hi]
  }

  function BestOf(text: string, lo: nat): string {
    if lo == 0 then "" else TruncateUtf8(text, lo - 1)
  }

  lemma SearchDone(record: Record, text: string, lo: nat)
    requires lo <= |Encode(text)| && !Fits(record, text, lo) && (lo > 0 ==> Fits(record, text, lo - 1))
    ensures var raw := Line(WithDetail(record, BestOf(text, lo)));
            && (|raw| <= LINE_CAP_BYTES <==> LineFits(WithDetail(record, "")))
            && (|raw| <= LINE_CAP_BYTES ==> LongestLine(record, text, raw))
  {
    CapEnds(record, text);
    if lo > 0 {
      FitsBelow(record, text, 0, lo - 1);
      forall n | lo - 1 < n <= |Encode(text)| ensures !Fits(record, text, n) {
        if Fits(record, text, n) {
          FitsBelow(record, text, lo, n);
        }
      }
      assert LargestCap(record, text, lo - 1);
    }
  }

  /** The smallest cap leaves nothing, the largest leaves everything. */
  lemma CapEnds(record: Record, text: string)
    ensures WithCap(record, text, 0) == WithDetail(record, "")
    ensures WithCap(record, text, |Encode(text)|) == WithDetail(record, text)
  {
  }

  // ---- reading a line back ----

  lemma DecodeEncoding(s: string)
    ensures DecodeIgnore(Encode(s)) == s
  {
    DecodeClipped(s, |Encode(s)|);
    FittingIsLongest(s, |Encode(s)|);
    assert Encode(s)[..|Encode(s)|] == Encode(s);
    assert s[..|s|] == s;
  }

  /** Section 7 of RFC 3629 and one character per width. */
  lemma Utf8Samples()
    ensures EncodeChar('A') == [0x41] && EncodeChar('\U{00E9}') == [0xC3, 0xA9]
    ensures EncodeChar('\U{2262}') == [0xE2, 0x89, 0xA2] && EncodeChar('\U{233B4}') == [0xF0, 0xA3, 0x8E, 0xB4]
  {
  }

  function HexValue(c: char): int {
    if '0' <= c <= '9' then c as int - '0' as int else if 'a' <= c <= 'f' then c as int - 'a' as int + 10 else -1
  }

  /** The character behind a backslash, section 7 of RFC 8259. */
  function Escaped(c: char): Option<char> {
    match c
    case '"' => Some('"')
    case '\\' => Some('\\')
    case '/' => Some('/')
    case 'b' => Some(8 as char)
    case 'f' => Some(12 as char)
    case 'n' => Some(10 as char)
    case 'r' => Some(13 as char)
    case 't' => Some(9 as char)
    case _ => None
  }

  /** The string a JSON string stands for; escapes of the form \u00xx are the only ones with digits
      that the writer uses. */
  function Unescape(s: string): string {
    if s == "" then ""
    else if s[0] != '\\' then [s[0]] + Unescape(s[1..])
    else if |s| >= 2 && Escaped(s[1]).Some? then [Escaped(s[1]).value] + Unescape(s[2..])
    else if |s| >= 6 && s[1] == 'u' && s[2] == '0' && s[3] == '0' && HexValue(s[4]) in {0, 1}
            && HexValue(s[5]) >= 0 then
      [(HexValue(s[4]) * 16 + HexValue(s[5])) as char] + Unescape(s[6..])
    else ""
  }

  lemma UnescapeOne(c: char, rest: string)
    ensures Unescape(EscapeChar(c) + rest) == [c] + Unescape(rest)
  {
    var e, s := EscapeChar(c), EscapeChar(c) + rest;
    assert s[|e|..] == rest;
    assert forall i :: 0 <= i < |e| ==> s[i] == e[i];
    if c as int < 0x20 && |e| == 6 {
      HexDigits(c as int);
    }
  }

  lemma HexDigits(n: int)
    requires 0 <= n < 0x20
    ensures HexValue(Hex(n / 16)) == n / 16 && HexValue(Hex(n % 16)) == n % 16
  {
  }

  /** A reader of the line gets the detail back, whatever had to be escaped. */
  lemma {:induction false} UnescapeEscape(s: string)
    ensures Unescape(Escape(s)) == s
  {
    if s != "" {
      UnescapeOne(s[0], Escape(s[1..]));
      UnescapeEscape(s[1..]);
    }
  }

  /** Where a JSON string ends: at its first quotation mark that no backslash escapes. */
  function ClosingQuote(s: string): (k: nat)
    ensures k <= |s|
  {
    if s == "" || s[0] == '"' then 0
    else if s[0] == '\\' && |s| >= 2 then 2 + ClosingQuote(s[2..])
    else 1 + ClosingQuote(s[1..])
  }

  lemma QuoteBehindOne(c: char, rest: string)
    ensures ClosingQuote(EscapeChar(c) + rest) == |EscapeChar(c)| + ClosingQuote(rest)
  {
    var e, s := EscapeChar(c), EscapeChar(c) + rest;
    assert s[|e|..] == rest;
    assert forall i :: 0 <= i < |e| ==> s[i] == e[i];
    if |e| == 6 {
      HexPlain(c as int);
      assert ClosingQuote(s) == 2 + ClosingQuote(s[2..]);
      PlainQuote(s, 2);
      PlainQuote(s, 3);
      PlainQuote(s, 4);
      PlainQuote(s, 5);
    }
  }

  lemma PlainQuote(s: string, i: nat)
    requires i < |s| && s[i] != '"' && s[i] != '\\'
    ensures ClosingQuote(s[i..]) == 1 + ClosingQuote(s[i + 1..])
  {
    assert s[i..][1..] == s[i + 1..];
  }

  lemma HexPlain(n: int)
    requires 0 <= n < 0x20
    ensures Hex(n / 16) != '"' && Hex(n / 16) != '\\' && Hex(n % 16) != '"' && Hex(n % 16) != '\\'
  {
  }

  lemma {:induction false} QuoteBehind(s: string, rest: string)
    ensures ClosingQuote(Escape(s) + "\"" + rest) == |Escape(s)|
  {
    if s == "" {
      assert Escape(s) + "\"" + rest == "\"" + rest;
    } else {
      var tail := Escape(s[1..]) + "\"" + rest;
      assert Escape(s) + "\"" + rest == EscapeChar(s[0]) + tail;
      QuoteBehindOne(s[0], tail);
      QuoteBehind(s[1..], rest);
    }
  }

  /** What follows the opening quotation mark of the detail reads back as the detail. */
  ghost predicate ReadsAs(text: string, detail: string, rest: string) {
    var k := ClosingQuote(text);
    && k < |text| && Unescape(text[..k]) == detail && text[k + 1..] == rest
    && forall c :: c in text[..k] ==> c as int >= 0x20
  }

  /** Section 7 of RFC 8259: no control character stands unescaped. */
  lemma {:induction false} NoControls(s: string)
    ensures forall c :: c in Escape(s) ==> c as int >= 0x20
  {
    if s != "" {
      NoControls(s[1..]);
      forall c | c in EscapeChar(s[0]) ensures c as int >= 0x20 {
      }
    }
  }

  lemma DetailReads(detail: string, rest: string)
    ensures ReadsAs(Escape(detail) + "\"" + rest, detail, rest)
  {
    var text := Escape(detail) + "\"" + rest;
    QuoteBehind(detail, rest);
    UnescapeEscape(detail);
    NoControls(detail);
    assert text[..|Escape(detail)|] == Escape(detail) && text[|Escape(detail)| + 1..] == rest;
  }

  lemma SerialiseParts(record: Record)
    requires record.detail.Some?
    ensures Serialise(record) == record.before + ("\"" + (Escape(record.detail.value) + "\"" + (record.after + "\n")))
  {
  }

  /** Reading a line back: its bytes decode to the text before the detail and a JSON string that stands
      for the detail, with the text after it and one line break behind. */
  lemma LineReads(record: Record)
    requires record.detail.Some?
    ensures exists text :: && DecodeIgnore(Line(record)) == record.before + ("\"" + text)
                           && ReadsAs(text, record.detail.value, record.after + "\n")
  {
    var text := Escape(record.detail.value) + "\"" + (record.after + "\n");
    SerialiseParts(record);
    DecodeEncoding(Serialise(record));
    DetailReads(record.detail.value, record.after + "\n");
  }
}
