/** What the string operations mean: stripping takes the white space off both ends and nothing else,
    and the references of a text are the labels put into it. */
module TextLaws {
  import opened Labels
  import opened Texts

  /** Stripping leaves nothing exactly when there is nothing but white space. */
  lemma StripBlank(s: string)
    ensures Strip(s) == "" <==> forall c :: c in s ==> IsSpace(c)
  {
    if c :| c in s && !IsSpace(c) {
      LStripKeeps(s, c);
      RStripKeeps(LStrip(s), c);
    } else {
      BlankLeft(s);
    }
  }

  lemma {:induction false} LStripKeeps(s: string, c: char)
    requires c in s && !IsSpace(c)
    ensures c in LStrip(s)
  {
    if IsSpace(s[0]) {
      assert s == [s[0]] + s[1..];
      LStripKeeps(s[1..], c);
    }
  }

  lemma {:induction false} RStripKeeps(s: string, c: char)
    requires c in s && !IsSpace(c)
    ensures c in RStrip(s)
  {
    if IsSpace(s[|s| - 1]) {
      assert s == s[..|s| - 1] + [s[|s| - 1]];
      RStripKeeps(s[..|s| - 1], c);
    }
  }

  lemma {:induction false} BlankLeft(s: string)
    requires forall c :: c in s ==> IsSpace(c)
    ensures LStrip(s) == ""
  {
    if s != "" {
      assert s[0] in s;
      assert forall c :: c in s[1..] ==> c in s;
      BlankLeft(s[1..]);
    }
  }

  ghost predicate AllSpace(s: string) {
    forall c :: c in s ==> IsSpace(c)
  }

  /** t is s without the white space at its ends. */
  ghost predicate IsStripped(s: string, t: string) {
    && (exists a, b :: AllSpace(a) && AllSpace(b) && s == a + t + b)
    && (t != "" ==> !IsSpace(t[0]) && !IsSpace(t[|t| - 1]))
  }

  lemma {:induction false} LStripCut(s: string) returns (a: string)
    ensures AllSpace(a) && s == a + LStrip(s)
  {
    if s != "" && IsSpace(s[0]) {
      a := LStripCut(s[1..]);
      a := [s[0]] + a;
    } else {
      a := "";
    }
  }

  lemma {:induction false} RStripCut(s: string) returns (b: string)
    ensures AllSpace(b) && s == RStrip(s) + b
  {
    if s != "" && IsSpace(s[|s| - 1]) {
      b := RStripCut(s[..|s| - 1]);
      b := b + [s[|s| - 1]];
    } else {
      b := "";
    }
  }

  lemma StripExact(s: string)
    ensures IsStripped(s, Strip(s))
  {
    var a := LStripCut(s);
    var b := RStripCut(LStrip(s));
    assert s == a + Strip(s) + b;
    if Strip(s) != "" {
      assert Strip(s)[0] == LStrip(s)[0];
    }
  }

  lemma {:induction false} IndexAfter(s: string, c: char, i: nat, k: nat)
    requires i <= k < |s| && s[k] == c && c !in s[i..k]
    ensures IndexFrom(s, c, i) == k
    decreases k - i
  {
    if i < k {
      assert s[i] in s[i..k];
      IndexAfter(s, c, i + 1, k);
    }
  }

  // ---- references ----

  /** A text in pieces: a reference, or something without one. */
  datatype Fragment = Plain(text: string) | Cite(name: string)

  function Piece(fragment: Fragment): string {
    match fragment
    case Plain(text) => text
    case Cite(name) => REF_OPEN + name + "}"
  }

  function Written(fragments: seq<Fragment>): string {
    if fragments == [] then "" else Piece(fragments[0]) + Written(fragments[1..])
  }

  /** No reference starts inside the first part. */
  ghost predicate NoneStarts(text: string, rest: string) {
    forall i :: 0 <= i < |text| ==> !(REF_OPEN <= (text + rest)[i..])
  }

  /** The pieces are what they say, whatever text follows. */
  ghost predicate Sound(fragment: Fragment, rest: string) {
    match fragment
    case Plain(text) => NoneStarts(text, rest)
    case Cite(name) => name != "" && '}' !in name
  }

  ghost predicate Proper(fragments: seq<Fragment>, tail: string) {
    fragments == [] || (Sound(fragments[0], Written(fragments[1..]) + tail) && Proper(fragments[1..], tail))
  }

  function NameOf(fragment: Fragment): seq<string> {
    match fragment
    case Plain(_) => []
    case Cite(name) => [name]
  }

  function Cited(fragments: seq<Fragment>): seq<string> {
    if fragments == [] then [] else NameOf(fragments[0]) + Cited(fragments[1..])
  }

  lemma RefThen(name: string, rest: string)
    requires name != "" && '}' !in name
    ensures RefGroups(REF_OPEN + name + "}" + rest) == [name] + RefGroups(rest)
  {
    var text, close := REF_OPEN + name + "}" + rest, |REF_OPEN| + |name|;
    assert text[|REF_OPEN|..close] == name && text[close + 1..] == rest && text[..|REF_OPEN|] == REF_OPEN;
    IndexAfter(text, '}', |REF_OPEN|, close);
  }

  lemma {:induction false} SkipPlain(text: string, rest: string)
    requires NoneStarts(text, rest)
    ensures RefGroups(text + rest) == RefGroups(rest)
  {
    var s := text + rest;
    if text == "" {
      assert s == rest;
    } else {
      assert s[0..] == s;
      assert s[1..] == text[1..] + rest;
      forall i | 0 <= i < |text[1..]| ensures !(REF_OPEN <= (text[1..] + rest)[i..]) {
        assert s[i + 1..] == (text[1..] + rest)[i..];
      }
      SkipPlain(text[1..], rest);
      NothingHere(s);
    }
  }

  lemma NothingHere(s: string)
    requires s != "" && !(REF_OPEN <= s)
    ensures RefGroups(s) == RefGroups(s[1..])
  {
    if |s| < |REF_OPEN| {
    }
  }

  lemma PieceFirst(fragment: Fragment, rest: string)
    requires Sound(fragment, rest)
    ensures RefGroups(Piece(fragment) + rest) == NameOf(fragment) + RefGroups(rest)
  {
    match fragment
    case Plain(text) =>
      SkipPlain(text, rest);
      assert [] + RefGroups(rest) == RefGroups(rest);
    case Cite(name) => RefThen(name, rest);
  }

  lemma Associates<T>(a: seq<T>, b: seq<T>, c: seq<T>)
    ensures (a + b) + c == a + (b + c)
  {
  }

  /** The scanner finds exactly the references that were put into the text, in order. */
  lemma {:induction false} GroupsOfWritten(fragments: seq<Fragment>, tail: string)
    requires Proper(fragments, tail)
    ensures RefGroups(Written(fragments) + tail) == Cited(fragments) + RefGroups(tail)
  {
    if fragments == [] {
      assert Written(fragments) + tail == tail;
      assert [] + RefGroups(tail) == RefGroups(tail);
    } else {
      var rest := Written(fragments[1..]);
      GroupsOfWritten(fragments[1..], tail);
      PieceFirst(fragments[0], rest + tail);
      Associates(Piece(fragments[0]), rest, tail);
      Associates(NameOf(fragments[0]), Cited(fragments[1..]), RefGroups(tail));
    }
  }

  /** d is one of the groups once the white space around it is off. */
  ghost predicate StripsTo(groups: seq<string>, d: string) {
    exists i :: 0 <= i < |groups| && Strip(groups[i]) == d
  }

  lemma {:induction false} AppearancesExact(groups: seq<string>, seen: seq<Label>, d: Label)
    requires Distinct(seen)
    ensures d in FirstAppearances(groups, seen) <==> d in seen || (d != "" && StripsTo(groups, d))
  {
    if groups != [] {
      var name := Strip(groups[0]);
      AppearancesExact(groups[1..], if name != "" && name !in seen then seen + [name] else seen, d);
      StripHead(groups, d);
    }
  }

  lemma StripHead(groups: seq<string>, d: string)
    requires groups != []
    ensures StripsTo(groups, d) <==> Strip(groups[0]) == d || StripsTo(groups[1..], d)
  {
    if i :| 0 <= i < |groups| && Strip(groups[i]) == d {
      if i > 0 {
        assert groups[1..][i - 1] == groups[i];
      }
    }
    if i :| 0 <= i < |groups[1..]| && Strip(groups[1..][i]) == d {
      assert groups[i + 1] == groups[1..][i];
    }
  }

  lemma GroupsOfBoth(statement: seq<Fragment>, proof: seq<Fragment>)
    requires Proper(statement, "\n" + Written(proof)) && Proper(proof, "")
    ensures RefGroups(Written(statement) + "\n" + Written(proof)) == Cited(statement) + Cited(proof)
  {
    var s, p := Written(statement), Written(proof);
    GroupsOfWritten(statement, "\n" + p);
    Associates(s, "\n", p);
    assert p + "" == p && Cited(proof) + RefGroups("") == Cited(proof);
    GroupsOfWritten(proof, "");
    BreakSkipped(p);
  }

  lemma BreakSkipped(p: string)
    ensures RefGroups("\n" + p) == RefGroups(p)
  {
    var s := "\n" + p;
    assert s[0] == '\n' && s[1..] == p;
    NothingHere(s);
  }

  /** The labels of a node's statement and proof are exactly the names cited in either, without the
      white space around them. */
  lemma RefsExact(statement: seq<Fragment>, proof: seq<Fragment>, d: Label)
    requires Proper(statement, "\n" + Written(proof)) && Proper(proof, "")
    ensures d in RefsOf(Written(statement), Written(proof)) <==> d != "" && StripsTo(Cited(statement) + Cited(proof), d)
  {
    GroupsOfBoth(statement, proof);
    AppearancesExact(Cited(statement) + Cited(proof), [], d);
  }

  /** An empty reference is none. */
  lemma EmptyReference(rest: string)
    ensures RefGroups(REF_OPEN + "}" + rest) == RefGroups(rest)
  {
    var text := REF_OPEN + "}" + rest;
    assert text[..|REF_OPEN|] == REF_OPEN;
    assert text[|REF_OPEN|] == '}';
    var inside := "ref{}";
    assert text[1..] == inside + rest;
    forall i | 0 <= i < |inside| ensures !(REF_OPEN <= (inside + rest)[i..]) {
      assert (inside + rest)[i] == inside[i] && inside[i] != '\\';
    }
    SkipPlain(inside, rest);
  }
}
