/** Finding the verdict object in a verifier's answer (verifier/decoder.py). Object texts are
    those of RFC 8259, sections 2 to 7. */
module VerdictScan {
  import opened Search

  // ---- the brace scanner ----

  datatype Scan = Open(depth: int, inString: bool, escaped: bool) | Closed(at: nat)

  function ScanChar(s: Scan, c: char, i: nat): Scan
    requires s.Open?
  {
    if s.inString then
      if s.escaped then s.(escaped := false)
      else if c == '\\' then s.(escaped := true)
      else if c == '"' then s.(inString := false)
      else s
    else if c == '"' then s.(inString := true)
    else if c == '{' then s.(depth := s.depth + 1)
    else if c == '}' then (if s.depth == 1 then Closed(i) else s.(depth := s.depth - 1))
    else s
  }

  /** The scanner's state after text, which starts at position i. */
  function Feed(text: string, s: Scan, i: nat): Scan {
    if text == "" || s.Closed? then s else Feed(text[1..], ScanChar(s, text[0], i), i + 1)
  }

  const START := Open(0, false, false)

  /** Where the object that opens at start is closed. */
  function ClosingBrace(text: string, start: nat): (end: Option<nat>)
    requires start < |text|
  {
    if text[start] != '{' then None
    else
      var s := Feed(text[start..], START, start);
      if s.Closed? then Some(s.at) else None
  }

  lemma {:induction false} FeedConcat(a: string, b: string, s: Scan, i: nat)
    ensures Feed(a + b, s, i) == Feed(b, Feed(a, s, i), i + |a|)
  {
    if a == "" {
      assert a + b == b;
    } else if s.Open? {
      assert (a + b)[1..] == a[1..] + b;
      FeedConcat(a[1..], b, ScanChar(s, a[0], i), i + 1);
    }
  }

  lemma {:induction false} ClosedInside(text: string, s: Scan, i: nat)
    requires s.Open?
    ensures Feed(text, s, i).Closed? ==> i <= Feed(text, s, i).at < i + |text|
  {
    if text != "" && ScanChar(s, text[0], i).Open? {
      ClosedInside(text[1..], ScanChar(s, text[0], i), i + 1);
    }
  }

  /** _matching_brace */
  method MatchingBrace(text: string, start: nat) returns (end: Option<nat>)
    requires start < |text|
    ensures end == ClosingBrace(text, start)
    ensures end.Some? ==> start < end.value < |text|
  {
    if text[start] != '{' {
      return None;
    }
    var depth, inString, escaped := 0, false, false;
    for i := start to |text|
      invariant Feed(text[start..], START, start) == Feed(text[i..], Open(depth, inString, escaped), i)
      invariant if i == start then !inString && depth == 0 else depth >= 1
    {
      var c := text[i];
      assert text[i..][1..] == text[i + 1..];
      if inString {
        if escaped {
          escaped := false;
        } else if c == '\\' {
          escaped := true;
        } else if c == '"' {
          inString := false;
        }
        continue;
      }
      if c == '"' {
        inString := true;
        continue;
      }
      if c == '{' {
        depth := depth + 1;
      } else if c == '}' {
        depth := depth - 1;
        if depth == 0 {
          return Some(i);
        }
      }
    }
    assert text[|text|..] == "";
    return None;
  }

  // ---- JSON texts ----

  /** One character of a string: plain, an escape such as \n, or \u and four digits. */
  datatype Piece = Plain(c: char) | Escape(c: char) | Unicode(digits: string)

  /** A JSON text with all its white space. */
  datatype Json =
    | Literal(text: string)
    | Text(pieces: seq<Piece>)
    | Array(blank: string, items: Items)
    | Object(blank: string, members: Members)

  datatype Items = NoItems | Item(before: string, value: Json, after: string, rest: Items)

  datatype Members = NoMembers
                   | Member(before: string, key: seq<Piece>, afterKey: string, beforeValue: string, value: Json,
                            after: string, rest: Members)

  predicate IsBlank(s: string) {
    forall c :: c in s ==> c in {' ', '\t', '\n', '\r'}
  }

  predicate IsHex(c: char) {
    '0' <= c <= '9' || 'a' <= c <= 'f' || 'A' <= c <= 'F'
  }

  predicate PieceValid(p: Piece) {
    match p
    case Plain(c) => c != '"' && c != '\\' && c as int >= 0x20
    case Escape(c) => c in "\"\\/bfnrt"
    case Unicode(digits) => |digits| == 4 && forall c :: c in digits ==> IsHex(c)
  }

  predicate PiecesValid(pieces: seq<Piece>) {
    forall i :: 0 <= i < |pieces| ==> PieceValid(pieces[i])
  }

  /** Includes true, false, null and every number of section 6. */
  predicate LiteralValid(s: string) {
    s != "" && forall c :: c in s ==> 'a' <= c <= 'z' || '0' <= c <= '9' || c in "+-.E"
  }

  predicate JsonValid(v: Json) {
    match v
    case Literal(s) => LiteralValid(s)
    case Text(pieces) => PiecesValid(pieces)
    case Array(blank, items) => IsBlank(blank) && ItemsValid(items)
    case Object(blank, members) => IsBlank(blank) && MembersValid(members)
  }

  predicate ItemsValid(items: Items) {
    match items
    case NoItems => true
    case Item(before, value, after, rest) => IsBlank(before) && JsonValid(value) && IsBlank(after) && ItemsValid(rest)
  }

  predicate MembersValid(members: Members) {
    match members
    case NoMembers => true
    case Member(before, key, afterKey, beforeValue, value, after, rest) =>
      && IsBlank(before) && PiecesValid(key) && IsBlank(afterKey) && IsBlank(beforeValue)
      && JsonValid(value) && IsBlank(after) && MembersValid(rest)
  }

  function WritePiece(p: Piece): string {
    match p
    case Plain(c) => [c]
    case Escape(c) => ['\\', c]
    case Unicode(digits) => "\\u" + digits
  }

  function WritePieces(pieces: seq<Piece>): string {
    if pieces == [] then "" else WritePiece(pieces[0]) + WritePieces(pieces[1..])
  }

  function WriteText(pieces: seq<Piece>): string {
    "\"" + WritePieces(pieces) + "\""
  }

  function Write(v: Json): string {
    match v
    case Literal(s) => s
    case Text(pieces) => WriteText(pieces)
    case Array(blank, items) => "[" + (blank + WriteItems(items)) + "]"
    case Object(blank, members) => "{" + (blank + WriteMembers(members)) + "}"
  }

  function WriteItems(items: Items): string {
    match items
    case NoItems => ""
    case Item(before, value, after, rest) =>
      before + Write(value) + after + if rest.NoItems? then "" else "," + WriteItems(rest)
  }

  function WriteMembers(members: Members): string {
    match members
    case NoMembers => ""
    case Member(before, key, afterKey, beforeValue, value, after, rest) =>
      (before + WriteText(key) + afterKey) + ":" + (beforeValue + Write(value) + after)
      + if rest.NoMembers? then "" else "," + WriteMembers(rest)
  }

  // ---- the scanner on JSON texts ----

  /** Scanning text outside strings, inside at least one object, changes nothing. */
  ghost predicate Neutral(text: string) {
    forall d, i: nat :: d >= 1 ==> Feed(text, Open(d, false, false), i) == Open(d, false, false)
  }

  predicate PlainOutside(s: string) {
    forall c :: c in s ==> c != '"' && c != '{' && c != '}'
  }

  lemma {:induction false} OutsideNeutral(s: string)
    requires PlainOutside(s)
    ensures Neutral(s)
  {
    if s != "" {
      assert s[0] in s && forall c :: c in s[1..] ==> c in s;
      OutsideNeutral(s[1..]);
      forall d, i: nat | d >= 1 ensures Feed(s, Open(d, false, false), i) == Open(d, false, false) {
        assert Feed(s, Open(d, false, false), i) == Feed(s[1..], Open(d, false, false), i + 1);
      }
    }
  }

  lemma NeutralConcat(a: string, b: string)
    requires Neutral(a) && Neutral(b)
    ensures Neutral(a + b)
  {
    forall d, i: nat | d >= 1 ensures Feed(a + b, Open(d, false, false), i) == Open(d, false, false) {
      FeedConcat(a, b, Open(d, false, false), i);
    }
  }

  lemma PieceKeepsString(p: Piece, d: int, i: nat)
    requires PieceValid(p)
    ensures Feed(WritePiece(p), Open(d, true, false), i) == Open(d, true, false)
  {
    var s := Open(d, true, false);
    match p
    case Plain(c) => assert Feed([c], s, i) == Feed([], s, i + 1);
    case Escape(c) => TwoChars('\\', c, s, i);
    case Unicode(digits) =>
      FeedConcat("\\u", digits, s, i);
      TwoChars('\\', 'u', s, i);
      HexKeepsString(digits, d, i + 2);
  }

  lemma TwoChars(a: char, b: char, s: Scan, i: nat)
    requires s.Open? && ScanChar(s, a, i).Open?
    ensures Feed([a, b], s, i) == ScanChar(ScanChar(s, a, i), b, i + 1)
  {
    assert [a, b][1..] == [b];
    OneChar(b, ScanChar(s, a, i), i + 1);
  }

  lemma {:induction false} HexKeepsString(digits: string, d: int, i: nat)
    requires forall c :: c in digits ==> IsHex(c)
    ensures Feed(digits, Open(d, true, false), i) == Open(d, true, false)
  {
    if digits != "" {
      assert digits[0] in digits;
      HexKeepsString(digits[1..], d, i + 1);
    }
  }

  lemma {:induction false} PiecesKeepString(pieces: seq<Piece>, d: int, i: nat)
    requires PiecesValid(pieces)
    ensures Feed(WritePieces(pieces), Open(d, true, false), i) == Open(d, true, false)
  {
    if pieces != [] {
      var first := WritePiece(pieces[0]);
      FeedConcat(first, WritePieces(pieces[1..]), Open(d, true, false), i);
      PieceKeepsString(pieces[0], d, i);
      PiecesKeepString(pieces[1..], d, i + |first|);
    }
  }

  lemma TextNeutral(pieces: seq<Piece>)
    requires PiecesValid(pieces)
    ensures Neutral(WriteText(pieces))
  {
    var body := WritePieces(pieces);
    forall d, i: nat | d >= 1 ensures Feed(WriteText(pieces), Open(d, false, false), i) == Open(d, false, false) {
      var s := Open(d, false, false);
      FeedConcat("\"" + body, "\"", s, i);
      FeedConcat("\"", body, s, i);
      OneChar('"', s, i);
      PiecesKeepString(pieces, d, i + 1);
      OneChar('"', Open(d, true, false), i + |body| + 1);
    }
  }

  lemma OneChar(c: char, s: Scan, i: nat)
    requires s.Open?
    ensures Feed([c], s, i) == ScanChar(s, c, i)
  {
    assert [c][1..] == [];
  }

  /** Braces: the inside is scanned one level deeper. */
  lemma BracesScan(inside: string, d: nat, i: nat)
    requires Neutral(inside)
    ensures Feed("{" + inside + "}", Open(d, false, false), i) ==
            if d == 0 then Closed(i + |inside| + 1) else Open(d, false, false)
  {
    var s := Open(d, false, false);
    FeedConcat("{" + inside, "}", s, i);
    FeedConcat("{", inside, s, i);
    OneChar('{', s, i);
    OneChar('}', Open(d + 1, false, false), i + |inside| + 1);
  }

  lemma {:induction false} JsonNeutral(v: Json)
    requires JsonValid(v)
    ensures Neutral(Write(v))
    decreases v, 0
  {
    match v
    case Literal(s) => OutsideNeutral(s);
    case Text(pieces) => TextNeutral(pieces);
    case Array(blank, items) =>
      OutsideNeutral(blank);
      ItemsNeutral(items);
      NeutralConcat(blank, WriteItems(items));
      OutsideNeutral("[");
      OutsideNeutral("]");
      NeutralConcat("[", blank + WriteItems(items));
      NeutralConcat("[" + (blank + WriteItems(items)), "]");
    case Object(blank, members) =>
      InsideNeutral(blank, members);
      var inside := blank + WriteMembers(members);
      forall d, i: nat | d >= 1 ensures Feed(Write(v), Open(d, false, false), i) == Open(d, false, false) {
        BracesScan(inside, d, i);
      }
  }

  lemma {:induction false} InsideNeutral(blank: string, members: Members)
    requires IsBlank(blank) && MembersValid(members)
    ensures Neutral(blank + WriteMembers(members))
    decreases members, 1
  {
    OutsideNeutral(blank);
    MembersNeutral(members);
    NeutralConcat(blank, WriteMembers(members));
  }

  lemma {:induction false} ItemsNeutral(items: Items)
    requires ItemsValid(items)
    ensures Neutral(WriteItems(items))
    decreases items, 0
  {
    match items
    case NoItems => OutsideNeutral("");
    case Item(before, value, after, rest) =>
      PaddedNeutral(before, value, after);
      ItemsNeutral(rest);
      TailNeutral(before + Write(value) + after, if rest.NoItems? then "" else "," + WriteItems(rest),
                  WriteItems(rest));
  }

  lemma {:induction false} PaddedNeutral(before: string, value: Json, after: string)
    requires IsBlank(before) && JsonValid(value) && IsBlank(after)
    ensures Neutral(before + Write(value) + after)
    decreases value, 1
  {
    OutsideNeutral(before);
    JsonNeutral(value);
    OutsideNeutral(after);
    NeutralConcat(before, Write(value));
    NeutralConcat(before + Write(value), after);
  }

  /** A neutral text followed by a comma and a neutral text, or by nothing. */
  lemma TailNeutral(head: string, tail: string, rest: string)
    requires Neutral(head) && Neutral(rest) && (tail == "" || tail == "," + rest)
    ensures Neutral(head + tail)
  {
    OutsideNeutral("");
    OutsideNeutral(",");
    NeutralConcat(",", rest);
    NeutralConcat(head, tail);
  }

  lemma {:induction false} MembersNeutral(members: Members)
    requires MembersValid(members)
    ensures Neutral(WriteMembers(members))
    decreases members, 0
  {
    match members
    case NoMembers => OutsideNeutral("");
    case Member(before, key, afterKey, beforeValue, value, after, rest) =>
      OutsideNeutral(before);
      TextNeutral(key);
      OutsideNeutral(afterKey);
      NeutralConcat(before, WriteText(key));
      NeutralConcat(before + WriteText(key), afterKey);
      OutsideNeutral(":");
      NeutralConcat(before + WriteText(key) + afterKey, ":");
      PaddedNeutral(beforeValue, value, after);
      var head := (before + WriteText(key) + afterKey) + ":" + (beforeValue + Write(value) + after);
      NeutralConcat((before + WriteText(key) + afterKey) + ":", beforeValue + Write(value) + after);
      MembersNeutral(rest);
      TailNeutral(head, if rest.NoMembers? then "" else "," + WriteMembers(rest), WriteMembers(rest));
  }

  /** For every object text, wherever it stands, the scanner finds its closing brace. */
  lemma ObjectCloses(before: string, v: Json, after: string)
    requires v.Object? && JsonValid(v)
    ensures |Write(v)| >= 2
    ensures ClosingBrace(before + Write(v) + after, |before|) == Some(|before| + |Write(v)| - 1)
  {
    var text := before + Write(v) + after;
    InsideNeutral(v.blank, v.members);
    BracesScan(v.blank + WriteMembers(v.members), 0, |before|);
    assert text[|before|..] == Write(v) + after;
    assert text[|before|] == Write(v)[0] == '{';
    FeedConcat(Write(v), after, START, |before|);
  }

  // ---- _find_last_verdict_blob ----

  /** What json.loads makes of a blob, and whether it is an object with the two verdict keys. */
  datatype Loaded = Malformed | Loaded(isVerdict: bool)

  /** The blob that starts at i parses, and ends at end. */
  predicate BlobAt(loads: string -> Loaded, text: string, i: nat, end: nat) {
    i < end < |text| && ClosingBrace(text, i) == Some(end) && loads(text[i..end + 1]).Loaded?
  }

  predicate VerdictAt(loads: string -> Loaded, text: string, i: nat, end: nat) {
    BlobAt(loads, text, i, end) && loads(text[i..end + 1]).isVerdict
  }

  /** No blob that parses starts before i and reaches it. */
  ghost predicate Uncovered(loads: string -> Loaded, text: string, i: nat) {
    forall j: nat, end: nat :: BlobAt(loads, text, j, end) && j < i ==> end < i
  }

  /** The sweep's next position: after the blob at i if it parses, else the next character. */
  function Next(loads: string -> Loaded, text: string, i: nat): (n: nat)
    requires i < |text|
    ensures i < n <= |text|
    ensures forall end: nat :: BlobAt(loads, text, i, end) ==> n == end + 1
  {
    var end := ClosingBrace(text, i);
    if end.Some? && i < end.value < |text| && loads(text[i..end.value + 1]).Loaded? then end.value + 1 else i + 1
  }

  /** The sweep from position from comes to i. */
  predicate Visits(loads: string -> Loaded, text: string, from: nat, i: nat)
    decreases |text| - from
  {
    from == i || (from < i && from < |text| && Visits(loads, text, Next(loads, text, from), i))
  }

  lemma {:induction false} VisitsNext(loads: string -> Loaded, text: string, from: nat, i: nat)
    requires Visits(loads, text, from, i) && i < |text|
    ensures Visits(loads, text, from, Next(loads, text, i))
    ensures forall j :: i < j < Next(loads, text, i) ==> !Visits(loads, text, from, j)
    decreases |text| - from
  {
    if from < i {
      VisitsNext(loads, text, Next(loads, text, from), i);
    }
  }

  /** The sweep comes to every place no earlier blob covers. */
  lemma {:induction false} UncoveredVisited(loads: string -> Loaded, text: string, from: nat, i: nat)
    requires Uncovered(loads, text, i) && from <= i <= |text|
    ensures Visits(loads, text, from, i)
    decreases |text| - from
  {
    if from < i {
      var n := Next(loads, text, from);
      var end := ClosingBrace(text, from);
      if end.Some? && BlobAt(loads, text, from, end.value) {
        assert end.value < i;
      }
      UncoveredVisited(loads, text, n, i);
    }
  }

  /** blob is the last verdict the sweep comes to before position upTo, if it comes to one. */
  ghost predicate IsLastVerdict(loads: string -> Loaded, text: string, blob: Option<string>, upTo: nat) {
    match blob
    case None => NoVisitedVerdict(loads, text, 0, upTo)
    case Some(b) =>
      exists i: nat, end: nat ::
        && VerdictAt(loads, text, i, end) && i < upTo && Visits(loads, text, 0, i) && b == text[i..end + 1]
        && NoVisitedVerdict(loads, text, i + 1, upTo)
  }

  ghost predicate NoVisitedVerdict(loads: string -> Loaded, text: string, lo: nat, hi: nat) {
    forall i: nat, end: nat :: VerdictAt(loads, text, i, end) && lo <= i < hi ==> !Visits(loads, text, 0, i)
  }

  lemma SweepStep(loads: string -> Loaded, text: string, blob: Option<string>, i: nat)
    requires i < |text| && Visits(loads, text, 0, i) && IsLastVerdict(loads, text, blob, i)
    ensures Visits(loads, text, 0, Next(loads, text, i))
    ensures forall end: nat :: VerdictAt(loads, text, i, end) ==>
                                 IsLastVerdict(loads, text, Some(text[i..end + 1]), Next(loads, text, i))
    ensures (forall end: nat :: !VerdictAt(loads, text, i, end)) ==>
              IsLastVerdict(loads, text, blob, Next(loads, text, i))
  {
    VisitsNext(loads, text, 0, i);
  }

  function LastOf<T>(q: seq<T>): Option<T> {
    if q == [] then None else Some(q[|q| - 1])
  }

  method FindLastVerdictBlob(loads: string -> Loaded, text: string) returns (blob: Option<string>)
    ensures IsLastVerdict(loads, text, blob, |text|)
    ensures blob.Some? ==> loads(blob.value).Loaded? && loads(blob.value).isVerdict
    ensures blob.Some? ==> exists i: nat, end: nat :: Braced(text, i, end) && blob.value == text[i..end + 1]
    ensures blob.None? ==>
              forall i: nat, end: nat :: i < |text| && Visits(loads, text, 0, i) && BlobAt(loads, text, i, end) ==>
                                           !loads(text[i..end + 1]).isVerdict
  {
    var candidates: seq<string> := [];
    var i := 0;
    while i < |text|
      invariant 0 <= i <= |text| && Visits(loads, text, 0, i)
      invariant IsLastVerdict(loads, text, LastOf(candidates), i)
    {
      SweepStep(loads, text, LastOf(candidates), i);
      var piece, next := ReadBlob(loads, text, i);
      if piece.Some? {
        candidates := candidates + [piece.value];
        assert LastOf(candidates) == piece;
      }
      i := next;
    }
    blob := LastOf(candidates);
    LastVerdictMeans(loads, text, blob);
  }

  predicate Braced(text: string, i: nat, end: nat) {
    i < end < |text| && text[i] == '{' && text[end] == '}'
  }

  lemma {:induction false} ClosedAtBrace(text: string, s: Scan, i: nat)
    requires s.Open? && Feed(text, s, i).Closed?
    ensures i <= Feed(text, s, i).at < i + |text| && text[Feed(text, s, i).at - i] == '}'
  {
    if text != "" && ScanChar(s, text[0], i).Open? {
      ClosedAtBrace(text[1..], ScanChar(s, text[0], i), i + 1);
    }
  }

  lemma BlobBraced(loads: string -> Loaded, text: string, i: nat, end: nat)
    requires BlobAt(loads, text, i, end)
    ensures Braced(text, i, end)
  {
    ClosedAtBrace(text[i..], START, i);
  }

  lemma LastVerdictMeans(loads: string -> Loaded, text: string, blob: Option<string>)
    requires IsLastVerdict(loads, text, blob, |text|)
    ensures blob.Some? ==> loads(blob.value).Loaded? && loads(blob.value).isVerdict
    ensures blob.Some? ==> exists i: nat, end: nat :: Braced(text, i, end) && blob.value == text[i..end + 1]
    ensures blob.None? ==>
              forall i: nat, end: nat :: i < |text| && Visits(loads, text, 0, i) && BlobAt(loads, text, i, end) ==>
                                           !loads(text[i..end + 1]).isVerdict
  {
    if blob.Some? {
      var i: nat, end: nat :| VerdictAt(loads, text, i, end) && blob.value == text[i..end + 1];
      BlobBraced(loads, text, i, end);
    } else {
      forall i: nat, end: nat | i < |text| && Visits(loads, text, 0, i) && BlobAt(loads, text, i, end)
        ensures !loads(text[i..end + 1]).isVerdict
      {
        assert !VerdictAt(loads, text, i, end);
      }
    }
  }

  /** What the sweep finds at i, and where it goes on. */
  method ReadBlob(loads: string -> Loaded, text: string, i: nat) returns (piece: Option<string>, next: nat)
    requires i < |text|
    ensures next == Next(loads, text, i)
    ensures piece.Some? ==> exists end: nat :: VerdictAt(loads, text, i, end) && piece.value == text[i..end + 1]
    ensures piece.None? ==> forall end: nat :: !VerdictAt(loads, text, i, end)
  {
    if text[i] != '{' {
      return None, i + 1;
    }
    var end := MatchingBrace(text, i);
    if end == None {
      return None, i + 1;
    }
    var found := text[i..end.value + 1];
    var data := loads(found);
    if data == Malformed {
      return None, i + 1;
    }
    assert BlobAt(loads, text, i, end.value);
    if data.isVerdict {
      assert VerdictAt(loads, text, i, end.value);
      piece := Some(found);
    } else {
      piece := None;
    }
    next := end.value + 1;
  }

  /** An embedded verdict object is found when the sweep comes to it and to no verdict after it. */
  lemma VisitedFound(loads: string -> Loaded, before: string, v: Json, after: string, blob: Option<string>)
    requires v.Object? && JsonValid(v) && loads(Write(v)) == Loaded(true)
    requires IsLastVerdict(loads, before + Write(v) + after, blob, |before + Write(v) + after|)
    requires Visits(loads, before + Write(v) + after, 0, |before|)
    requires NoVisitedVerdict(loads, before + Write(v) + after, |before| + |Write(v)|, |before + Write(v) + after|)
    ensures blob == Some(Write(v))
  {
    var text := before + Write(v) + after;
    var end := |before| + |Write(v)| - 1;
    ObjectCloses(before, v, after);
    assert text[|before|..end + 1] == Write(v);
    assert VerdictAt(loads, text, |before|, end);
    VisitsNext(loads, text, 0, |before|);
  }

  /** In particular when no blob that parses covers its start and no verdict follows it. */
  lemma EmbeddedFound(loads: string -> Loaded, before: string, v: Json, after: string, blob: Option<string>)
    requires v.Object? && JsonValid(v) && loads(Write(v)) == Loaded(true)
    requires IsLastVerdict(loads, before + Write(v) + after, blob, |before + Write(v) + after|)
    requires Uncovered(loads, before + Write(v) + after, |before|)
    requires forall i: nat, end: nat :: VerdictAt(loads, before + Write(v) + after, i, end) ==>
                                          i < |before| + |Write(v)|
    ensures blob == Some(Write(v))
  {
    UncoveredVisited(loads, before + Write(v) + after, 0, |before|);
    VisitedFound(loads, before, v, after, blob);
  }
}
