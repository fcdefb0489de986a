/** What the repair_hint field holds after any run of messages, and what its two readers
    get back out of it. */
module HintSections {
  import opened Hints
  import opened History
  import opened Labels
  import opened Projection
  import opened Search
  import opened TextLaws
  import opened Texts

  /** s contains no RULE. */
  ghost predicate Clean(s: string) {
    forall i :: 0 <= i <= |s| ==> !(RULE <= s[i..])
  }

  // ---- splitting undoes joining ----

  /** Where RULE occurs in s, seen character by character. */
  lemma RuleAt(s: string, i: nat)
    requires i <= |s|
    ensures RULE <= s[i..]
       <==> i + 5 <= |s| && s[i] == '\n' && s[i + 1] == '-' && s[i + 2] == '-' && s[i + 3] == '-' && s[i + 4] == '\n'
  {
    if i + 5 <= |s| {
      assert s[i..][..5] == [s[i], s[i + 1], s[i + 2], s[i + 3], s[i + 4]];
    }
  }

  lemma CleanPart(a: string, s: string, b: string)
    requires Clean(a + s + b)
    ensures Clean(s)
  {
    var t := a + s + b;
    forall i | 0 <= i <= |s| ensures !(RULE <= s[i..]) {
      RuleAt(s, i);
      RuleAt(t, |a| + i);
      assert forall k :: 0 <= k < |s| ==> t[|a| + k] == s[k];
    }
  }

  lemma CleanShorter(s: string)
    requires Clean(s + "\n")
    ensures Clean(s)
  {
    forall i | 0 <= i <= |s| ensures !(RULE <= s[i..]) {
      RuleAt(s, i);
      RuleAt(s + "\n", i);
    }
  }

  /** A divider is found where it was put: RULE overlaps itself in the line break only. */
  lemma FirstRule(block: string, rest: string)
    requires Clean(block + "\n")
    ensures FindRule(block + RULE + rest) == |block|
  {
    var s := block + RULE + rest;
    forall i | 0 <= i < |block| ensures !(RULE <= s[i..]) {
      RuleAt(s, i);
      RuleAt(block + "\n", i);
      assert forall k :: 0 <= k <= |block| ==> s[k] == (block + "\n")[k];
      assert s[|block|] == '\n';
    }
    assert s[|block|..] == RULE + rest;
    var k := FindRule(s);
  }

  lemma SplitOne(block: string)
    requires Clean(block)
    ensures Split(block) == [block]
  {
  }

  lemma SplitCons(block: string, rest: string)
    requires Clean(block + "\n")
    ensures Split(block + RULE + rest) == [block] + Split(rest)
  {
    var s := block + RULE + rest;
    FirstRule(block, rest);
    assert s[..|block|] == block;
    assert s[|block| + |RULE|..] == rest;
  }

  /** Blocks that keep their divisions when joined: none holds a divider line, not even together
      with the line break of the divider that follows it. */
  ghost predicate Splittable(blocks: seq<string>) {
    forall i :: 0 <= i < |blocks| ==> Clean(if i < |blocks| - 1 then blocks[i] + "\n" else blocks[i])
  }

  lemma SplittableTail(blocks: seq<string>)
    requires |blocks| > 1 && Splittable(blocks)
    ensures Clean(blocks[0] + "\n") && Splittable(blocks[1..])
  {
    forall i | 0 <= i < |blocks[1..]|
      ensures Clean(if i < |blocks[1..]| - 1 then blocks[1..][i] + "\n" else blocks[1..][i]) {
      assert blocks[1..][i] == blocks[i + 1];
    }
  }

  lemma {:induction false} JoinedSplits(blocks: seq<string>)
    requires blocks != [] && Splittable(blocks)
    ensures Split(Join(RULE, blocks)) == blocks
  {
    if |blocks| == 1 {
      SplitOne(blocks[0]);
    } else {
      SplittableTail(blocks);
      JoinedSplits(blocks[1..]);
      var rest := Join(RULE, blocks[1..]);
      SplitCons(blocks[0], rest);
      assert blocks == [blocks[0]] + blocks[1..];
    }
  }

  lemma CleanBeforeRule(s: string, k: nat)
    requires k < |s| && RULE <= s[k..] && forall i :: 0 <= i < k ==> !(RULE <= s[i..])
    ensures Clean(s[..k] + "\n")
  {
    var t := s[..k] + "\n";
    RuleAt(s, k);
    forall i | 0 <= i <= |t| ensures !(RULE <= t[i..]) {
      RuleAt(t, i);
      if i < k {
        RuleAt(s, i);
        assert forall j :: 0 <= j <= k ==> t[j] == s[j];
      }
    }
  }

  lemma SplittableCons(block: string, rest: seq<string>)
    requires Clean(block + "\n") && Splittable(rest) && rest != []
    ensures Splittable([block] + rest)
  {
    var blocks := [block] + rest;
    DropHead(block, rest);
    forall i | 0 <= i < |blocks| ensures Clean(if i < |blocks| - 1 then blocks[i] + "\n" else blocks[i]) {
      if i > 0 {
        assert blocks[i] == rest[i - 1];
      }
    }
  }

  lemma {:induction false} SplitPieces(s: string)
    ensures Splittable(Split(s))
    decreases |s|
  {
    var k := FindRule(s);
    if k < |s| {
      var rest := Split(s[k + |RULE|..]);
      SplitPieces(s[k + |RULE|..]);
      CleanBeforeRule(s, k);
      SplittableCons(s[..k], rest);
    } else {
      assert Clean(s);
    }
  }

  /** Splitting undoes joining exactly for blocks that keep their divisions. */
  lemma SplitJoin(blocks: seq<string>)
    requires blocks != []
    ensures Split(Join(RULE, blocks)) == blocks <==> Splittable(blocks)
  {
    SplitPieces(Join(RULE, blocks));
    if Splittable(blocks) {
      JoinedSplits(blocks);
    }
  }

  lemma {:induction false} JoinAppend(blocks: seq<string>, block: string)
    requires blocks != []
    ensures Join(RULE, blocks + [block]) == Join(RULE, blocks) + RULE + block
  {
    if |blocks| > 1 {
      JoinAppend(blocks[1..], block);
      assert (blocks + [block])[1..] == blocks[1..] + [block];
    }
  }

  lemma {:induction false} JoinExtend(blocks: seq<string>, tail: string)
    requires blocks != []
    ensures Join(RULE, blocks[..|blocks| - 1] + [blocks[|blocks| - 1] + tail]) == Join(RULE, blocks) + tail
  {
    if |blocks| > 1 {
      JoinExtend(blocks[1..], tail);
      var last := |blocks| - 1;
      assert (blocks[..last] + [blocks[last] + tail])[1..] == blocks[1..][..last - 1] + [blocks[1..][last - 1] + tail];
    }
  }

  // ---- sections ----

  /** A section as it is written: non-empty, without trailing white space or divider lines. */
  ghost predicate Section(s: string) {
    s != "" && !IsSpace(s[|s| - 1]) && Clean(s + "\n")
  }

  /** block is the section, possibly followed by one line break. */
  ghost predicate BlockOf(block: string, section: string) {
    block == section || block == section + "\n"
  }

  lemma BlockMeans(block: string, section: string)
    requires Section(section) && BlockOf(block, section)
    ensures RStrip(block) == section && block != "" && Clean(block + "\n")
    ensures IsUserSection(block) <==> IsUserSection(section)
    ensures IsUserSection(section) && section[0] == '[' ==> Strip(block) == section
    ensures IsUserSection(block) <==> IsUserSection(Strip(block))
  {
    if block != section {
      assert block[..|block| - 1] == section;
      CleanLonger(section);
      LStripExtend(section);
    }
    StripKeepsHeader(section);
    LStripExtend(section);
  }

  lemma CleanLonger(s: string)
    requires Clean(s + "\n")
    ensures Clean(s + "\n" + "\n")
  {
    var t := s + "\n" + "\n";
    forall i | 0 <= i <= |t| ensures !(RULE <= t[i..]) {
      RuleAt(t, i);
      if i <= |s + "\n"| {
        RuleAt(s + "\n", i);
      }
    }
  }

  lemma {:induction false} LStripExtend(s: string)
    requires s != "" && !IsSpace(s[|s| - 1])
    ensures LStrip(s) != "" && LStrip(s)[|LStrip(s)| - 1] == s[|s| - 1]
    ensures LStrip(s + "\n") == LStrip(s) + "\n"
    ensures RStrip(LStrip(s)) == LStrip(s) && RStrip(LStrip(s) + "\n") == LStrip(s)
  {
    if IsSpace(s[0]) {
      LStripExtend(s[1..]);
      assert (s + "\n")[1..] == s[1..] + "\n";
    } else {
      assert (s + "\n")[..|s|] == s;
    }
  }

  lemma {:induction false} LStripTwice(s: string)
    ensures LStrip(LStrip(s)) == LStrip(s)
  {
    if s != "" && IsSpace(s[0]) {
      LStripTwice(s[1..]);
    }
  }

  lemma StripKeepsHeader(s: string)
    requires s != "" && !IsSpace(s[|s| - 1])
    ensures Strip(s) == LStrip(s) && Strip(s + "\n") == LStrip(s)
    ensures LStrip(Strip(s)) == LStrip(s)
    ensures IsUserSection(s + "\n") <==> IsUserSection(s)
  {
    LStripExtend(s);
    LStripTwice(s);
    PrefixBefore(USER_HEADER, LStrip(s), '\n');
  }

  lemma PrefixBefore<T>(p: seq<T>, t: seq<T>, c: T)
    requires p != [] && p[|p| - 1] != c
    ensures p <= t + [c] <==> p <= t
  {
    if p <= t + [c] {
      assert (t + [c])[|p| - 1] == p[|p| - 1];
      assert (t + [c])[..|p|] == t[..|p|];
    }
    if p <= t {
      assert (t + [c])[..|p|] == t[..|p|];
    }
  }

  // ---- the field as a list of sections ----

  /** h is made of one block per section. */
  ghost predicate MadeOf(h: string, blocks: seq<string>, sections: seq<string>) {
    && |blocks| == |sections| && (forall i :: 0 <= i < |blocks| ==> BlockOf(blocks[i], sections[i]))
    && h == Join(RULE, blocks)
  }

  ghost predicate Holds(h: string, sections: seq<string>) {
    if sections == [] then h == "" else exists blocks :: MadeOf(h, blocks, sections)
  }

  ghost predicate Sections(sections: seq<string>) {
    forall i :: 0 <= i < |sections| ==> Section(sections[i])
  }

  lemma BlocksSplit(h: string, blocks: seq<string>, sections: seq<string>)
    requires sections != [] && Sections(sections) && MadeOf(h, blocks, sections)
    ensures h != "" && Split(h) == blocks
  {
    forall i | 0 <= i < |blocks| ensures Clean(if i < |blocks| - 1 then blocks[i] + "\n" else blocks[i]) {
      BlockMeans(blocks[i], sections[i]);
      CleanShorter(blocks[i]);
    }
    SplitJoin(blocks);
    BlockMeans(blocks[0], sections[0]);
  }

  lemma MadeAppend(h: string, blocks: seq<string>, sections: seq<string>, section: string)
    requires blocks != [] && MadeOf(h, blocks, sections)
    ensures MadeOf(h + RULE + (section + "\n"), blocks + [section + "\n"], sections + [section])
  {
    JoinAppend(blocks, section + "\n");
    AppendedPairs(blocks, sections, section + "\n", section);
  }

  lemma AppendedPairs<T>(a: seq<T>, b: seq<T>, x: T, y: T)
    requires |a| == |b|
    ensures forall i :: 0 <= i < |a| ==> (a + [x])[i] == a[i] && (b + [y])[i] == b[i]
    ensures (a + [x])[|a|] == x && (b + [y])[|a|] == y
  {
  }

  lemma AppendSection(h: string, sections: seq<string>, section: string)
    requires Sections(sections) && Section(section) && Holds(h, sections)
    ensures Holds(if h == "" then section + "\n" else h + RULE + (section + "\n"), sections + [section])
  {
    if sections == [] {
      assert MadeOf(section + "\n", [section + "\n"], [section]);
      assert sections + [section] == [section];
    } else {
      var blocks :| MadeOf(h, blocks, sections);
      BlocksSplit(h, blocks, sections);
      MadeAppend(h, blocks, sections, section);
    }
  }

  lemma JoinSections(sections: seq<string>)
    requires Sections(sections)
    ensures Holds(WithNewline(Join(RULE, sections)), sections)
  {
    if sections != [] {
      var last := |sections| - 1;
      var blocks := sections[..last] + [sections[last] + "\n"];
      ReplaceLast(sections, sections[last] + "\n");
      assert MadeOf(Join(RULE, sections), sections, sections);
      BlocksSplit(Join(RULE, sections), sections, sections);
      JoinExtend(sections, "\n");
      assert MadeOf(WithNewline(Join(RULE, sections)), blocks, sections);
    }
  }

  lemma ReplaceLast<T>(q: seq<T>, x: T)
    requires q != []
    ensures var r := q[..|q| - 1] + [x];
            |r| == |q| && r[|q| - 1] == x && forall i :: 0 <= i < |q| - 1 ==> r[i] == q[i]
  {
  }

  /** The verifier section, if any, and the user sections after it. */
  function Listed(verifier: string, users: seq<string>): seq<string> {
    (if verifier == "" then [] else [verifier]) + users
  }

  ghost predicate Authored(verifier: string, users: seq<string>) {
    && Sections(Listed(verifier, users))
    && (verifier != "" ==> !IsUserSection(verifier))
    && (forall i :: 0 <= i < |users| ==> USER_HEADER <= users[i])
  }

  /** Both readers get users out of the blocks. */
  ghost predicate Yields(blocks: seq<string>, users: seq<string>) {
    RStripAll(UserSections(blocks)) == users && UserSections(StripAll(blocks)) == users
  }

  lemma {:induction false} UserBlocks(blocks: seq<string>, users: seq<string>)
    requires |blocks| == |users| && Sections(users) && forall i :: 0 <= i < |users| ==> USER_HEADER <= users[i]
    requires forall i :: 0 <= i < |blocks| ==> BlockOf(blocks[i], users[i])
    ensures Yields(blocks, users)
  {
    if users != [] {
      assert users[0][0] == '[';
      BlockMeans(blocks[0], users[0]);
      UserBlocks(blocks[1..], users[1..]);
      FirstUser(blocks, users[0], users[1..]);
      assert users == [users[0]] + users[1..];
    }
  }

  lemma FirstUser(blocks: seq<string>, user: string, rest: seq<string>)
    requires blocks != [] && RStrip(blocks[0]) == user && Strip(blocks[0]) == user && IsUserSection(blocks[0])
    requires IsUserSection(user)
    requires Yields(blocks[1..], rest)
    ensures Yields(blocks, [user] + rest)
  {
    UserSectionsCons(user, StripAll(blocks[1..]));
    DropHead(blocks[0], UserSections(blocks[1..]));
  }

  lemma UserSectionsCons(piece: string, rest: seq<string>)
    ensures UserSections([piece] + rest) == if IsUserSection(piece) then [piece] + UserSections(rest)
                                            else UserSections(rest)
  {
    DropHead(piece, rest);
    EmptyConcat(UserSections(rest));
  }

  lemma VerifierDropped(blocks: seq<string>, verifier: string)
    requires blocks != [] && Section(verifier) && BlockOf(blocks[0], verifier) && !IsUserSection(verifier)
    ensures forall users :: Yields(blocks[1..], users) ==> Yields(blocks, users)
  {
    BlockMeans(blocks[0], verifier);
    EmptyConcat(UserSections(blocks[1..]));
    UserSectionsCons(Strip(blocks[0]), StripAll(blocks[1..]));
  }

  lemma UsersAfterVerifier(blocks: seq<string>, sections: seq<string>)
    requires |blocks| == |sections| && sections != [] && Sections(sections)
    requires forall i :: 0 <= i < |blocks| ==> BlockOf(blocks[i], sections[i])
    requires !IsUserSection(sections[0]) && forall i :: 0 <= i < |sections[1..]| ==> USER_HEADER <= sections[1..][i]
    ensures Yields(blocks, sections[1..])
  {
    VerifierDropped(blocks, sections[0]);
    TailPairs(blocks, sections);
    UserBlocks(blocks[1..], sections[1..]);
  }

  lemma TailPairs(blocks: seq<string>, sections: seq<string>)
    requires |blocks| == |sections| && sections != [] && Sections(sections)
    requires forall i :: 0 <= i < |blocks| ==> BlockOf(blocks[i], sections[i])
    ensures Sections(sections[1..]) && forall i :: 0 <= i < |blocks[1..]| ==> BlockOf(blocks[1..][i], sections[1..][i])
  {
    forall i | 0 <= i < |blocks[1..]| ensures BlockOf(blocks[1..][i], sections[1..][i]) && Section(sections[1..][i]) {
      assert BlockOf(blocks[i + 1], sections[i + 1]) && Section(sections[i + 1]);
    }
  }

  /** Both readers keep exactly the user sections. */
  lemma ReadersAgree(blocks: seq<string>, verifier: string, users: seq<string>)
    requires Authored(verifier, users) && |blocks| == |Listed(verifier, users)|
    requires forall i :: 0 <= i < |blocks| ==> BlockOf(blocks[i], Listed(verifier, users)[i])
    ensures Yields(blocks, users)
  {
    if verifier == "" {
      EmptyConcat(users);
      UserBlocks(blocks, users);
    } else {
      DropHead(verifier, users);
      UsersAfterVerifier(blocks, [verifier] + users);
    }
  }

  lemma DropHead<T>(x: T, q: seq<T>)
    ensures ([x] + q)[0] == x && ([x] + q)[1..] == q && forall i :: 0 <= i < |q| ==> ([x] + q)[i + 1] == q[i]
  {
  }

  lemma EmptyConcat<T>(q: seq<T>)
    ensures [] + q == q
  {
  }

  lemma MergeKeeps(h: string, verifier: string, users: seq<string>, hint: string)
    requires Authored(verifier, users) && Holds(h, Listed(verifier, users)) && Authored(RStrip(hint), users)
    ensures Holds(MergeVerifierSection(h, hint), Listed(RStrip(hint), users))
  {
    var all, next := Listed(verifier, users), RStrip(hint);
    JoinSections(Listed(next, users));
    if all == [] {
      assert Listed(next, users) == if next == "" then [] else [next];
    } else {
      var blocks :| MadeOf(h, blocks, all);
      BlocksSplit(h, blocks, all);
      ReadersAgree(blocks, verifier, users);
      var kept := UserSections(blocks);
      var pieces := (if next == "" then [] else [next]) + kept;
      assert next == "" ==> pieces == kept;
      RStripIdempotent(hint);
      assert RStripAll(pieces) == Listed(next, users);
    }
  }

  lemma {:induction false} RStripIdempotent(s: string)
    ensures RStrip(RStrip(s)) == RStrip(s)
  {
    if s != "" && IsSpace(s[|s| - 1]) {
      RStripIdempotent(s[..|s| - 1]);
    }
  }

  // ---- runs of messages ----

  function HintStep(h: string, message: Message): string {
    match message
    case Judged(run) => if run.verdict == "accepted" then h else MergeVerifierSection(h, run.hint)
    case Hinted(stamp, hint) => AttachUserSection(h, stamp, hint)
  }

  function HintAfter(messages: seq<Message>): string {
    if messages == [] then "" else HintStep(HintAfter(messages[..|messages| - 1]), messages[|messages| - 1])
  }

  /** What the latest refusal said; "" if it said nothing or there was none. */
  function LatestVerifier(messages: seq<Message>): string {
    if messages == [] then ""
    else
      var last := messages[|messages| - 1];
      if last.Judged? && last.run.verdict != "accepted" then RStrip(last.run.hint)
      else LatestVerifier(messages[..|messages| - 1])
  }

  /** Every user hint in order, as a section. */
  function UserHints(messages: seq<Message>): seq<string> {
    if messages == [] then []
    else
      var earlier, last := UserHints(messages[..|messages| - 1]), messages[|messages| - 1];
      if last.Hinted? then earlier + [UserSection(last.stamp, last.hint)] else earlier
  }

  /** The text has no line "---" once its trailing white space is gone. */
  ghost predicate NoRuleLine(hint: string) {
    Clean("\n" + RStrip(hint) + "\n")
  }

  /** No divider line behind its first line, and not to be taken for a user's section. */
  ghost predicate VerifierFits(section: string) {
    Clean(section + "\n") && !IsUserSection(section)
  }

  /** The message is written into the field as one section of its author. */
  ghost predicate Tame(message: Message) {
    match message
    case Judged(run) => run.verdict == "accepted" || RStrip(run.hint) == "" || VerifierFits(RStrip(run.hint))
    case Hinted(stamp, hint) => Strip(hint) != "" && Clean(UserSection(stamp, hint) + "\n")
  }

  lemma {:induction false} BlankStrips(s: string)
    requires RStrip(s) == ""
    ensures forall i :: 0 <= i < |s| ==> IsSpace(s[i])
  {
    if s != "" {
      BlankStrips(s[..|s| - 1]);
    }
  }

  lemma {:induction false} BlankLStrip(s: string)
    requires forall i :: 0 <= i < |s| ==> IsSpace(s[i])
    ensures LStrip(s) == ""
  {
    if s != "" {
      BlankLStrip(s[1..]);
    }
  }

  lemma UserSectionFits(stamp: string, hint: string)
    requires Clean(UserSection(stamp, hint) + "\n") && Strip(hint) != ""
    ensures Section(UserSection(stamp, hint)) && USER_HEADER <= UserSection(stamp, hint)
  {
    if RStrip(hint) == "" {
      BlankStrips(hint);
      BlankLStrip(hint);
    }
  }

  /** The section written for a hint holds a divider line exactly when the hint does. */
  lemma SectionClean(stamp: string, hint: string)
    requires '\n' !in stamp
    ensures Clean(UserSection(stamp, hint) + "\n") <==> NoRuleLine(hint)
  {
    var head, body := USER_HEADER + stamp + "]", "\n" + RStrip(hint) + "\n";
    var t := UserSection(stamp, hint) + "\n";
    assert t == head + body;
    if NoRuleLine(hint) {
      LineOverHead(head, body);
    } else {
      assert t == head + body + "";
      if Clean(t) {
        CleanPart(head, body, "");
      }
    }
  }

  lemma LineOverHead(head: string, body: string)
    requires '\n' !in head && Clean(body)
    ensures Clean(head + body)
  {
    var t := head + body;
    forall i | 0 <= i <= |t| ensures !(RULE <= t[i..]) {
      RuleAt(t, i);
      if i < |head| {
        assert t[i] == head[i];
        assert head[i] in head;
      } else {
        assert t[i..] == body[i - |head|..];
      }
    }
  }

  /** The blocks the field should hold after user hints alone. */
  function HintBlocks(messages: seq<Message>): (blocks: seq<string>)
    requires forall i :: 0 <= i < |messages| ==> messages[i].Hinted?
    ensures |blocks| == |messages|
    ensures forall i :: 0 <= i < |messages| ==> blocks[i] == UserSection(messages[i].stamp, messages[i].hint) + "\n"
  {
    seq(|messages|, i requires 0 <= i < |messages| && messages[i].Hinted? =>
      UserSection(messages[i].stamp, messages[i].hint) + "\n")
  }

  lemma {:induction false} HintsJoined(messages: seq<Message>)
    requires messages != [] && forall i :: 0 <= i < |messages| ==> messages[i].Hinted?
    ensures HintAfter(messages) == Join(RULE, HintBlocks(messages)) && HintAfter(messages) != ""
  {
    var earlier, last := messages[..|messages| - 1], messages[|messages| - 1];
    var block := UserSection(last.stamp, last.hint) + "\n";
    assert HintBlocks(messages) == HintBlocks(earlier) + [block];
    if earlier == [] {
      assert HintBlocks(messages) == [block];
    } else {
      HintsJoined(earlier);
      JoinAppend(HintBlocks(earlier), block);
    }
  }

  /** User hints alone come back out of the field, one piece each, exactly when none of them has
      a divider line. */
  lemma HintsSplitExactly(messages: seq<Message>)
    requires messages != [] && forall i :: 0 <= i < |messages| ==> messages[i].Hinted? && '\n' !in messages[i].stamp
    ensures Split(HintAfter(messages)) == HintBlocks(messages)
       <==> forall i :: 0 <= i < |messages| ==> NoRuleLine(messages[i].hint)
  {
    var blocks := HintBlocks(messages);
    HintsJoined(messages);
    SplitJoin(blocks);
    forall i | 0 <= i < |messages|
      ensures Clean(if i < |blocks| - 1 then blocks[i] + "\n" else blocks[i]) <==> NoRuleLine(messages[i].hint)
    {
      BlockClean(messages[i].stamp, messages[i].hint);
      assert blocks[i] == UserSection(messages[i].stamp, messages[i].hint) + "\n";
    }
  }

  lemma BlockClean(stamp: string, hint: string)
    requires '\n' !in stamp
    ensures var block := UserSection(stamp, hint) + "\n";
            (Clean(block) <==> NoRuleLine(hint)) && (Clean(block + "\n") <==> NoRuleLine(hint))
  {
    var section := UserSection(stamp, hint);
    SectionClean(stamp, hint);
    if Clean(section + "\n") {
      CleanLonger(section);
    }
    if Clean(section + "\n" + "\n") {
      CleanShorter(section + "\n");
    }
  }

  lemma PushUser(verifier: string, users: seq<string>, section: string)
    requires Authored(verifier, users) && Section(section) && USER_HEADER <= section
    ensures Authored(verifier, users + [section])
    ensures Listed(verifier, users + [section]) == Listed(verifier, users) + [section]
  {
    var all := Listed(verifier, users);
    AppendedPairs(all, all, section, section);
    AppendedPairs(users, users, section, section);
    ConcatAssociates(if verifier == "" then [] else [verifier], users, [section]);
  }

  lemma ConcatAssociates<T>(a: seq<T>, b: seq<T>, c: seq<T>)
    ensures (a + b) + c == a + (b + c)
  {
  }

  lemma NewVerifier(verifier: string, users: seq<string>, next: string)
    requires Authored(verifier, users) && (next != "" ==> Section(next) && !IsUserSection(next))
    ensures Authored(next, users)
  {
    forall i | 0 <= i < |users| ensures Section(users[i]) {
      var k := if verifier == "" then i else i + 1;
      assert Listed(verifier, users)[k] == users[i];
    }
  }

  lemma {:induction false} MessagesKept(messages: seq<Message>)
    requires forall i :: 0 <= i < |messages| ==> Tame(messages[i])
    ensures Authored(LatestVerifier(messages), UserHints(messages))
    ensures Holds(HintAfter(messages), Listed(LatestVerifier(messages), UserHints(messages)))
  {
    if messages != [] {
      var earlier, last := messages[..|messages| - 1], messages[|messages| - 1];
      MessagesKept(earlier);
      var h, verifier, users := HintAfter(earlier), LatestVerifier(earlier), UserHints(earlier);
      match last
      case Judged(run) =>
        if run.verdict != "accepted" {
          NewVerifier(verifier, users, RStrip(run.hint));
          MergeKeeps(h, verifier, users, run.hint);
        }
      case Hinted(stamp, hint) =>
        UserSectionFits(stamp, hint);
        PushUser(verifier, users, UserSection(stamp, hint));
        AppendSection(h, Listed(verifier, users), UserSection(stamp, hint));
    }
  }

  /** After any run of tame messages the field splits into what the latest refusal said and every
      user hint in order, and the prompt shows exactly the user hints. */
  lemma SectionsSurvive(messages: seq<Message>)
    requires forall i :: 0 <= i < |messages| ==> Tame(messages[i])
    ensures var h, sections := HintAfter(messages), Listed(LatestVerifier(messages), UserHints(messages));
            && (h == "" <==> sections == [])
            && (h != "" ==> RStripAll(Split(h)) == sections)
            && UserSectionsOnly(h) == Join("\n\n---\n", UserHints(messages))
  {
    MessagesKept(messages);
    FieldRead(HintAfter(messages), LatestVerifier(messages), UserHints(messages));
  }

  lemma FieldRead(h: string, verifier: string, users: seq<string>)
    requires Authored(verifier, users) && Holds(h, Listed(verifier, users))
    ensures var sections := Listed(verifier, users);
            && (h == "" <==> sections == [])
            && (h != "" ==> RStripAll(Split(h)) == sections)
            && UserSectionsOnly(h) == Join("\n\n---\n", users)
  {
    var sections := Listed(verifier, users);
    if sections != [] {
      var blocks :| MadeOf(h, blocks, sections);
      BlocksSplit(h, blocks, sections);
      ReadersAgree(blocks, verifier, users);
      BlocksStrip(blocks, sections);
    }
  }

  lemma {:induction false} BlocksStrip(blocks: seq<string>, sections: seq<string>)
    requires |blocks| == |sections| && Sections(sections)
    requires forall i :: 0 <= i < |blocks| ==> BlockOf(blocks[i], sections[i])
    ensures RStripAll(blocks) == sections
  {
    if blocks != [] {
      BlockMeans(blocks[0], sections[0]);
      BlocksStrip(blocks[1..], sections[1..]);
    }
  }

  /** The condition on divider lines is needed: a user hint with such a line inside loses
      everything after it at the next refusal. */
  lemma RuleLineCutsHint(stamp: string, kept: string, lost: string, verifierHint: string)
    requires NoRuleLine(kept) && '\n' !in stamp && Strip(kept) != "" && RStrip(kept) == kept
    requires Section(lost) && !IsUserSection(lost)
    ensures MergeVerifierSection(AttachUserSection("", stamp, kept + RULE + lost), verifierHint)
         == MergeVerifierSection(AttachUserSection("", stamp, kept), verifierHint)
  {
    var section := UserSection(stamp, kept);
    SectionClean(stamp, kept);
    UserSectionFits(stamp, kept);
    AttachWhole(stamp, kept, lost);
    UsersOfTwo(section, lost);
    MergeByUsers(section + RULE + (lost + "\n"), section + "\n", section, section + "\n", verifierHint);
  }

  lemma AttachWhole(stamp: string, kept: string, lost: string)
    requires RStrip(kept) == kept && lost != "" && !IsSpace(lost[|lost| - 1])
    ensures AttachUserSection("", stamp, kept + RULE + lost) == UserSection(stamp, kept) + RULE + (lost + "\n")
  {
    var whole := kept + RULE + lost;
    assert whole[|whole| - 1] == lost[|lost| - 1];
    assert RStrip(whole) == whole;
    Regroup(USER_HEADER + stamp + "]\n", kept, RULE, lost, "\n");
  }

  lemma Regroup<T>(p: seq<T>, a: seq<T>, b: seq<T>, c: seq<T>, d: seq<T>)
    ensures (p + (a + b + c)) + d == p + a + b + (c + d)
  {
  }

  lemma UsersOfTwo(section: string, lost: string)
    requires Section(section) && IsUserSection(section) && Section(lost) && !IsUserSection(lost)
    ensures section + "\n" != "" && section + RULE + (lost + "\n") != ""
    ensures UserSections(Split(section + RULE + (lost + "\n"))) == [section]
    ensures UserSections(Split(section + "\n")) == [section + "\n"]
    ensures RStrip(section) == section && RStrip(section + "\n") == section
  {
    BlockMeans(section, section);
    UsersOfOne(section);
    UsersOfOne(lost);
    SplitCons(section, lost + "\n");
    UserSectionsCons(section, [lost + "\n"]);
  }

  lemma UsersOfOne(section: string)
    requires Section(section)
    ensures Split(section + "\n") == [section + "\n"] && RStrip(section + "\n") == section
    ensures UserSections([section + "\n"]) == if IsUserSection(section) then [section + "\n"] else []
  {
    BlockMeans(section + "\n", section);
    SplitOne(section + "\n");
    OneBlock(section + "\n");
  }

  lemma OneBlock(block: string)
    ensures UserSections([block]) == if IsUserSection(block) then [block] else []
  {
    assert [block][1..] == [];
  }

  lemma MergeByUsers(a: string, b: string, p: string, q: string, verifierHint: string)
    requires a != "" && b != "" && UserSections(Split(a)) == [p] && UserSections(Split(b)) == [q]
    requires RStrip(p) == RStrip(q)
    ensures MergeVerifierSection(a, verifierHint) == MergeVerifierSection(b, verifierHint)
  {
    var first := if RStrip(verifierHint) == "" then [] else [RStrip(verifierHint)];
    assert RStripAll(first + [p]) == RStripAll(first + [q]);
  }

  // ---- what a refusal keeps of one hint ----

  lemma {:induction false} JoinSplit(s: string)
    ensures Join(RULE, Split(s)) == s
    decreases |s|
  {
    var k := FindRule(s);
    if k < |s| {
      var rest := s[k + |RULE|..];
      JoinSplit(rest);
      DropHead(s[..k], Split(rest));
      CutAtRule(s, k);
    }
  }

  lemma CutAtRule(s: string, k: nat)
    requires k < |s| && RULE <= s[k..]
    ensures s == s[..k] + RULE + s[k + |RULE|..]
  {
    assert s[k..][..|RULE|] == RULE;
  }

  /** Length of the pieces with one divider each. */
  function Weight(pieces: seq<string>): nat {
    if pieces == [] then 0 else |pieces[0]| + |RULE| + Weight(pieces[1..])
  }

  lemma {:induction false} JoinWeight(pieces: seq<string>)
    requires pieces != []
    ensures |Join(RULE, pieces)| + |RULE| == Weight(pieces)
  {
    if |pieces| > 1 {
      JoinWeight(pieces[1..]);
    }
  }

  ghost predicate AllKept(pieces: seq<string>) {
    forall i :: 0 <= i < |pieces| ==> IsUserSection(pieces[i]) && RStrip(pieces[i]) == pieces[i]
  }

  /** What _merge_verifier_section keeps of the pieces of the old field. */
  function Kept(pieces: seq<string>): seq<string> {
    RStripAll(UserSections(pieces))
  }

  lemma KeptCons(piece: string, rest: seq<string>)
    ensures Kept([piece] + rest) == if IsUserSection(piece) then [RStrip(piece)] + Kept(rest) else Kept(rest)
  {
    UserSectionsCons(piece, rest);
    DropHead(piece, UserSections(rest));
  }

  ghost predicate AllUsers(pieces: seq<string>) {
    forall i :: 0 <= i < |pieces| ==> IsUserSection(pieces[i])
  }

  /** The merge keeps no more than there is, less if it trims a piece, and a divider less for
      every piece it drops. */
  ghost predicate Weighed(pieces: seq<string>) {
    && (AllKept(pieces) ==> Kept(pieces) == pieces)
    && (AllKept(pieces) || Weight(Kept(pieces)) < Weight(pieces))
    && (AllUsers(pieces) || Weight(Kept(pieces)) + |RULE| <= Weight(pieces))
  }

  lemma AllCons(piece: string, rest: seq<string>)
    ensures AllKept([piece] + rest) <==> IsUserSection(piece) && RStrip(piece) == piece && AllKept(rest)
    ensures AllUsers([piece] + rest) <==> IsUserSection(piece) && AllUsers(rest)
  {
    DropHead(piece, rest);
  }

  lemma WeightCons(piece: string, rest: seq<string>)
    ensures Weight([piece] + rest) == |piece| + |RULE| + Weight(rest)
  {
    DropHead(piece, rest);
  }

  lemma WeighedCons(piece: string, rest: seq<string>)
    requires Weighed(rest)
    ensures Weighed([piece] + rest)
  {
    KeptCons(piece, rest);
    AllCons(piece, rest);
    WeightCons(piece, rest);
    WeightCons(RStrip(piece), Kept(rest));
    TrimLighter(piece);
  }

  lemma TrimLighter(piece: string)
    ensures RStrip(piece) == piece || |RStrip(piece)| < |piece|
  {
  }

  lemma {:induction false} KeptWeight(pieces: seq<string>)
    ensures Weighed(pieces)
  {
    if pieces != [] {
      KeptWeight(pieces[1..]);
      WeighedCons(pieces[0], pieces[1..]);
      assert pieces == [pieces[0]] + pieces[1..];
    }
  }

  lemma {:induction false} KeptLast(front: seq<string>, piece: string)
    ensures Kept(front + [piece]) == Kept(front) + if IsUserSection(piece) then [RStrip(piece)] else []
  {
    if front == [] {
      assert front + [piece] == [piece] + [];
      KeptCons(piece, []);
    } else {
      KeptLast(front[1..], piece);
      KeptLastCons(front[0], front[1..], piece);
      assert front == [front[0]] + front[1..];
    }
  }

  lemma KeptLastCons(head: string, more: seq<string>, piece: string)
    requires Kept(more + [piece]) == Kept(more) + if IsUserSection(piece) then [RStrip(piece)] else []
    ensures Kept([head] + more + [piece]) == Kept([head] + more) + if IsUserSection(piece) then [RStrip(piece)] else []
  {
    ConcatAssociates([head], more, [piece]);
    KeptCons(head, more);
    KeptCons(head, more + [piece]);
    if IsUserSection(head) {
      ConcatAssociates([RStrip(head)], Kept(more), if IsUserSection(piece) then [RStrip(piece)] else []);
    }
  }

  /** Every piece is taken for a user's, and no white space stands before a divider. */
  ghost predicate SurvivesRefusal(pieces: seq<string>) {
    forall i :: 0 <= i < |pieces| ==> IsUserSection(pieces[i]) && (i < |pieces| - 1 ==> RStrip(pieces[i]) == pieces[i])
  }

  /** The pieces of a section, once its closing line break is off the last of them. */
  lemma LastPiece(section: string, front: seq<string>, last: string) returns (body: string)
    requires section != "" && !IsSpace(section[|section| - 1]) && Join(RULE, front + [last]) == section + "\n"
    requires last != ""
    ensures last == body + "\n" && RStrip(body) == body && RStrip(last) == body && Join(RULE, front + [body]) == section
    ensures IsUserSection(last) <==> IsUserSection(body)
  {
    body := last[..|last| - 1];
    JoinEnds(front, last);
    assert last == body + "\n";
    ReplaceLast(front + [body], last);
    JoinExtend(front + [body], "\n");
    assert (front + [body])[..|front|] + [body + "\n"] == front + [last];
    assert (Join(RULE, front + [body]) + "\n")[..|section|] == section;
    if front == [] {
      assert front + [body] == [body];
    } else {
      JoinAppend(front, body);
    }
    assert body != "";
    JoinEnds(front, body);
    StripKeepsHeader(body);
  }

  lemma JoinEnds(front: seq<string>, last: string)
    requires last != ""
    ensures var s := Join(RULE, front + [last]); s != "" && s[|s| - 1] == last[|last| - 1]
  {
    if front == [] {
      assert front + [last] == [last];
    } else {
      JoinAppend(front, last);
    }
  }

  /** The pieces that the merge keeps make up the section again exactly when all survive. */
  lemma KeptMakesSection(section: string, pieces: seq<string>)
    requires section != "" && !IsSpace(section[|section| - 1]) && pieces != [] && Join(RULE, pieces) == section + "\n"
    ensures SurvivesRefusal(pieces) ==> Kept(pieces) != [] && Join(RULE, Kept(pieces)) == section
    ensures !SurvivesRefusal(pieces) ==> Weight(Kept(pieces)) < |section| + |RULE|
  {
    var n := |pieces| - 1;
    var front, last := pieces[..n], pieces[n];
    assert pieces == front + [last];
    JoinWeight(pieces);
    KeptWeight(pieces);
    if last != "" {
      var body := LastPiece(section, front, last);
      JoinWeight(front + [body]);
      KeptWeight(front + [body]);
      KeptLast(front, last);
      KeptLast(front, body);
      assert SurvivesRefusal(pieces) <==> AllKept(front + [body]) by {
        SameButLast(front, last, body);
      }
    }
  }

  lemma SameButLast(front: seq<string>, last: string, body: string)
    requires RStrip(body) == body && (IsUserSection(last) <==> IsUserSection(body))
    ensures SurvivesRefusal(front + [last]) <==> AllKept(front + [body])
  {
    var a, b := front + [last], front + [body];
    forall i | 0 <= i < |a|
      ensures (IsUserSection(a[i]) && (i < |a| - 1 ==> RStrip(a[i]) == a[i]))
         <==> (IsUserSection(b[i]) && RStrip(b[i]) == b[i])
    {
    }
  }

  /** A refusal that finds one user hint in the field keeps it whole exactly when every piece the
      divider lines cut it into is taken for a user section and has no white space before the
      divider: never, for a hint whose text after a divider line is ordinary prose. */
  lemma RefusalKeepsHint(stamp: string, hint: string, verifierHint: string)
    requires Strip(hint) != ""
    ensures var section, field := UserSection(stamp, hint), AttachUserSection("", stamp, hint);
            MergeVerifierSection(field, verifierHint)
            == WithNewline(Join(RULE, Listed(RStrip(verifierHint), [section])))
            <==> SurvivesRefusal(Split(field))
  {
    NonBlankEnds(stamp, hint);
    RefusalKeepsSection(UserSection(stamp, hint), verifierHint);
  }

  lemma RefusalKeepsSection(section: string, verifierHint: string)
    requires section != "" && !IsSpace(section[|section| - 1])
    ensures MergeVerifierSection(section + "\n", verifierHint)
         == WithNewline(Join(RULE, Listed(RStrip(verifierHint), [section])))
       <==> SurvivesRefusal(Split(section + "\n"))
  {
    JoinSplit(section + "\n");
    MergeKept(section + "\n", verifierHint);
    KeepsWhole(section, Split(section + "\n"), RStrip(verifierHint));
  }

  lemma KeepsWhole(section: string, pieces: seq<string>, next: string)
    requires section != "" && !IsSpace(section[|section| - 1]) && pieces != [] && Join(RULE, pieces) == section + "\n"
    ensures WithNewline(Join(RULE, Listed(next, Kept(pieces)))) == WithNewline(Join(RULE, Listed(next, [section])))
       <==> SurvivesRefusal(pieces)
  {
    KeptMakesSection(section, pieces);
    if Kept(pieces) != [] {
      JoinWeight(Kept(pieces));
    }
    SameJoin(next, Kept(pieces), section);
  }

  lemma MergeKept(field: string, verifierHint: string)
    requires field != ""
    ensures MergeVerifierSection(field, verifierHint)
         == WithNewline(Join(RULE, Listed(RStrip(verifierHint), Kept(Split(field)))))
  {
    RStripIdempotent(verifierHint);
    KeptAfter(RStrip(verifierHint), UserSections(Split(field)));
  }

  lemma NonBlankEnds(stamp: string, hint: string)
    requires Strip(hint) != ""
    ensures var section := UserSection(stamp, hint); section != "" && !IsSpace(section[|section| - 1])
  {
    if RStrip(hint) == "" {
      BlankStrips(hint);
      BlankLStrip(hint);
    }
  }

  lemma KeptAfter(next: string, users: seq<string>)
    requires RStrip(next) == next
    ensures RStripAll((if next == "" then [] else [next]) + users) == Listed(next, RStripAll(users))
  {
  }

  /** Joining after the verifier's section tells a whole section from anything lighter. */
  lemma SameJoin(next: string, kept: seq<string>, section: string)
    requires section != "" && (kept == [] || Join(RULE, kept) == section || Weight(kept) < |section| + |RULE|)
    ensures WithNewline(Join(RULE, Listed(next, kept))) == WithNewline(Join(RULE, Listed(next, [section])))
       <==> kept != [] && Join(RULE, kept) == section
  {
    assert Join(RULE, [section]) == section;
    NewlineInjective(Join(RULE, Listed(next, kept)), Join(RULE, Listed(next, [section])));
    if kept != [] {
      JoinWeight(kept);
    }
    if next == "" {
      EmptyConcat(kept);
      EmptyConcat([section]);
    } else {
      DropHead(next, [section]);
      DropHead(next, kept);
      assert Join(RULE, [next] + [section]) == next + RULE + section;
      if kept == [] {
        assert [next] + kept == [next];
      } else {
        assert Join(RULE, [next] + kept) == next + RULE + Join(RULE, kept);
        SamePrefix(next + RULE, Join(RULE, kept), section);
      }
    }
  }

  lemma NewlineInjective(a: string, b: string)
    ensures WithNewline(a) == WithNewline(b) <==> a == b
  {
    if a != "" && b != "" && a + "\n" == b + "\n" {
      assert (a + "\n")[..|a|] == (b + "\n")[..|b|];
    }
  }

  lemma SamePrefix<T>(p: seq<T>, a: seq<T>, b: seq<T>)
    ensures p + a == p + b <==> a == b
  {
    if p + a == p + b {
      assert (p + a)[|p|..] == (p + b)[|p|..];
    }
  }

  // ---- over the log ----

  /** The messages on x applied at positions lo..hi. */
  ghost function Messages(log: seq<Event>, x: Label, lo: nat, hi: nat): seq<Message>
    requires hi <= |log|
  {
    if hi <= lo then []
    else
      var earlier, last := Messages(log, x, lo, hi - 1), MessageAt(log, hi - 1, x);
      if last.Some? then earlier + [last.value] else earlier
  }

  /** repair_hint is what the messages since the verification hash last moved have built. */
  lemma {:induction false} HintHistory(log: seq<Event>, x: Label, n: nat)
    requires n <= |log| && x in At(log, n).nodes
    ensures At(log, n).nodes[x].hint == HintAfter(Messages(log, x, SinceClear(log, x, n), n))
  {
    if n > 0 {
      StepEffect(log, n - 1, x);
      if !ClearsAt(log, n - 1, x) {
        HintHistory(log, x, n - 1);
        PushMessage(Messages(log, x, SinceClear(log, x, n), n - 1), MessageAt(log, n - 1, x));
      }
    }
  }

  lemma PushMessage(messages: seq<Message>, message: Option<Message>)
    ensures message.Some? ==> HintAfter(messages + [message.value]) == HintStep(HintAfter(messages), message.value)
  {
    if message.Some? {
      assert (messages + [message.value])[..|messages|] == messages;
    }
  }

  /** In every reachable state, if the messages since the last clear were tame, the stored hint
      splits into the latest refusal and the user hints, and the prompt shows those user hints. */
  lemma StoredSections(log: seq<Event>, x: Label)
    requires x in Replay(log).nodes
    requires forall m :: m in Messages(log, x, SinceClear(log, x, |log|), |log|) ==> Tame(m)
    ensures var messages, h := Messages(log, x, SinceClear(log, x, |log|), |log|), Replay(log).nodes[x].hint;
            && (h != "" ==> RStripAll(Split(h)) == Listed(LatestVerifier(messages), UserHints(messages)))
            && (h == "" <==> Listed(LatestVerifier(messages), UserHints(messages)) == [])
            && UserSectionsOnly(h) == Join("\n\n---\n", UserHints(messages))
  {
    TakeAll(log);
    HintHistory(log, x, |log|);
    SectionsSurvive(Messages(log, x, SinceClear(log, x, |log|), |log|));
  }

  // ---- the texts as they are written ----

  ghost predicate RightStripped(s: string, t: string) {
    && (exists space :: AllSpace(space) && s == t + space)
    && (t != "" ==> !IsSpace(t[|t| - 1]))
  }

  lemma RStripExact(s: string)
    ensures RightStripped(s, RStrip(s))
  {
    var space := RStripCut(s);
  }

  /** A user's hint goes behind a divider line under its own header line. */
  lemma HintAsWritten(existing: string, stamp: string, hint: string)
    ensures exists text :: RightStripped(hint, text)
                           && AttachUserSection(existing, stamp, hint)
                              == (if existing == "" then "" else existing + "\n---\n")
                                 + ("[user @ " + stamp + "]\n" + text + "\n")
  {
    RStripExact(hint);
    var text := RStrip(hint);
    var section := "[user @ " + stamp + "]\n" + text + "\n";
    assert UserSection(stamp, hint) + "\n" == section;
    if existing == "" {
      assert "" + section == section;
    }
  }

  /** A refusal without earlier hints leaves its own hint and one line break, or nothing. */
  lemma RefusalAsWritten(hint: string)
    ensures exists text :: && RightStripped(hint, text)
                           && MergeVerifierSection("", hint) == if text == "" then "" else text + "\n"
  {
    RStripExact(hint);
  }
}
