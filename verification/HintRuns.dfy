/** Whole runs of hints and verdicts: exactly when every field along the run splits into its
    sections, and exactly when the latest refusal that said something is still there. */
module HintRuns {
  import opened Hints
  import opened HintSections
  import opened History
  import opened Labels
  import opened Projection
  import opened Texts

  const PROMPT_RULE := "\n\n---\n"

  /** The field comes apart into exactly these sections. */
  ghost predicate SplitsInto(h: string, sections: seq<string>) {
    if sections == [] then h == "" else h != "" && RStripAll(Split(h)) == sections
  }

  /** The field splits into what the latest refusal said and every user hint in order, and the
      prompt shows exactly those user hints. */
  ghost predicate Intact(messages: seq<Message>) {
    && SplitsInto(HintAfter(messages), Listed(LatestVerifier(messages), UserHints(messages)))
    && UserSectionsOnly(HintAfter(messages)) == Join(PROMPT_RULE, UserHints(messages))
  }

  /** Every hint says something: the projector applies no other. */
  ghost predicate Written(messages: seq<Message>) {
    forall i :: 0 <= i < |messages| && messages[i].Hinted? ==> Strip(messages[i].hint) != ""
  }

  lemma TameIntact(messages: seq<Message>)
    requires forall i :: 0 <= i < |messages| ==> Tame(messages[i])
    ensures Intact(messages)
  {
    SectionsSurvive(messages);
  }

  // ---- a message that does not fit shows at once ----

  /** A divider line inside a text ends its first piece early. */
  lemma FirstPieceShort(text: string, rest: string)
    requires !Clean(text + "\n")
    ensures |Split(text + "\n" + rest)[0]| < |text|
  {
    var s := text + "\n" + rest;
    var i :| 0 <= i <= |text + "\n"| && RULE <= (text + "\n")[i..];
    RuleAt(text + "\n", i);
    RuleAt(s, i);
    assert forall k :: 0 <= k <= |text| ==> s[k] == (text + "\n")[k];
    assert RULE <= s[i..];
    assert FindRule(s) <= i;
  }

  /** Fitting blocks in front split off whatever follows them. */
  lemma {:induction false} SplitFront(blocks: seq<string>, tail: string)
    requires forall i :: 0 <= i < |blocks| ==> Clean(blocks[i] + "\n")
    ensures Split(Join(RULE, blocks + [tail])) == blocks + Split(tail)
  {
    if blocks == [] {
      assert blocks + [tail] == [tail];
    } else {
      SplitFront(blocks[1..], tail);
      SplitBehind(blocks[0], blocks[1..], tail);
      assert blocks == [blocks[0]] + blocks[1..];
    }
  }

  lemma SplitBehind(block: string, more: seq<string>, tail: string)
    requires Clean(block + "\n") && Split(Join(RULE, more + [tail])) == more + Split(tail)
    ensures Split(Join(RULE, [block] + more + [tail])) == [block] + more + Split(tail)
  {
    var rest := Join(RULE, more + [tail]);
    ConcatAssociates([block], more, [tail]);
    ConcatAssociates([block], more, Split(tail));
    DropHead(block, more + [tail]);
    SplitCons(block, rest);
  }

  lemma UnfitHintShows(h: string, sections: seq<string>, section: string)
    requires Sections(sections) && Holds(h, sections) && !Clean(section + "\n")
    ensures var field := if h == "" then section + "\n" else h + RULE + (section + "\n");
            !SplitsInto(field, sections + [section])
  {
    FirstPieceShort(section, "");
    assert section + "\n" + "" == section + "\n";
    if sections == [] {
      assert sections + [section] == [section];
    } else {
      var blocks :| MadeOf(h, blocks, sections);
      BlocksSplit(h, blocks, sections);
      forall i | 0 <= i < |blocks| ensures Clean(blocks[i] + "\n") {
        BlockMeans(blocks[i], sections[i]);
      }
      JoinAppend(blocks, section + "\n");
      SplitFront(blocks, section + "\n");
      var pieces := Split(section + "\n");
      assert (blocks + pieces)[|blocks|] == pieces[0];
      assert (sections + [section])[|blocks|] == section;
    }
  }

  lemma UnfitRefusalShows(next: string, users: seq<string>)
    requires next != "" && !Clean(next + "\n")
    ensures !SplitsInto(WithNewline(Join(RULE, [next] + users)), [next] + users)
  {
    var field := WithNewline(Join(RULE, [next] + users));
    if users == [] {
      assert [next] + users == [next];
      FirstPieceShort(next, "");
      assert field == next + "\n" + "";
    } else {
      var rest := Join(RULE, users);
      DropHead(next, users);
      FirstPieceShort(next, RULE[1..] + rest + "\n");
      RuleLine(next, rest);
    }
  }

  lemma RuleLine(next: string, rest: string)
    ensures next + RULE + rest + "\n" == next + "\n" + (RULE[1..] + rest + "\n")
  {
    assert RULE == "\n" + RULE[1..];
  }

  /** A refusal that starts like a user's section is shown to the generator as one. */
  lemma UserLookShows(next: string, users: seq<string>)
    requires Section(next) && IsUserSection(next) && Authored("", users)
    ensures UserSectionsOnly(WithNewline(Join(RULE, [next] + users))) != Join(PROMPT_RULE, users)
  {
    var sections, field := [next] + users, WithNewline(Join(RULE, [next] + users));
    forall i | 0 <= i < |sections| ensures Section(sections[i]) {
      assert i > 0 ==> Listed("", users)[i - 1] == sections[i];
    }
    JoinSections(sections);
    var blocks :| MadeOf(field, blocks, sections);
    BlocksSplit(field, blocks, sections);
    TailPairs(blocks, sections);
    DropHead(next, users);
    UserBlocks(blocks[1..], users);
    BlockMeans(blocks[0], next);
    assert StripAll(blocks) == [Strip(blocks[0])] + StripAll(blocks[1..]);
    UserSectionsCons(Strip(blocks[0]), StripAll(blocks[1..]));
    LongerJoin(Strip(blocks[0]), users);
  }

  lemma LongerJoin(piece: string, users: seq<string>)
    requires piece != ""
    ensures Join(PROMPT_RULE, [piece] + users) != Join(PROMPT_RULE, users)
  {
    DropHead(piece, users);
    if users == [] {
      assert [piece] + users == [piece];
    }
  }

  // ---- runs ----

  lemma LastMessageShows(earlier: seq<Message>, last: Message)
    requires (forall i :: 0 <= i < |earlier| ==> Tame(earlier[i])) && Written(earlier + [last]) && !Tame(last)
    ensures !Intact(earlier + [last])
  {
    MessagesKept(earlier);
    var messages := earlier + [last];
    assert messages[..|messages| - 1] == earlier && messages[|messages| - 1] == last;
    var h, verifier, users := HintAfter(earlier), LatestVerifier(earlier), UserHints(earlier);
    match last
    case Hinted(stamp, hint) =>
      UnfitHintShows(h, Listed(verifier, users), UserSection(stamp, hint));
      ConcatAssociates(if verifier == "" then [] else [verifier], users, [UserSection(stamp, hint)]);
    case Judged(run) => RefusalShows(h, verifier, users, run.hint);
  }

  lemma RefusalShows(h: string, verifier: string, users: seq<string>, hint: string)
    requires Authored(verifier, users) && Holds(h, Listed(verifier, users)) && RStrip(hint) != ""
    requires !VerifierFits(RStrip(hint))
    ensures var field := MergeVerifierSection(h, hint);
            !SplitsInto(field, Listed(RStrip(hint), users)) || UserSectionsOnly(field) != Join(PROMPT_RULE, users)
  {
    var next := RStrip(hint);
    MergedField(h, verifier, users, hint);
    if Clean(next + "\n") {
      NewVerifier(verifier, users, "");
      UserLookShows(next, users);
    } else {
      UnfitRefusalShows(next, users);
    }
  }

  /** What a refusal writes over an intact field. */
  lemma MergedField(h: string, verifier: string, users: seq<string>, hint: string)
    requires Authored(verifier, users) && Holds(h, Listed(verifier, users)) && RStrip(hint) != ""
    ensures MergeVerifierSection(h, hint) == WithNewline(Join(RULE, [RStrip(hint)] + users))
  {
    var all := Listed(verifier, users);
    if all == [] {
      assert users == [];
      assert [RStrip(hint)] + users == [RStrip(hint)];
    } else {
      var blocks :| MadeOf(h, blocks, all);
      BlocksSplit(h, blocks, all);
      ReadersAgree(blocks, verifier, users);
      MergeKept(h, hint);
    }
  }

  /** Every field along a run is intact exactly when every message is written as one section. */
  lemma {:induction false} RunIntact(messages: seq<Message>)
    requires Written(messages)
    ensures (forall n :: 0 <= n <= |messages| ==> Intact(messages[..n]))
       <==> forall i :: 0 <= i < |messages| ==> Tame(messages[i])
  {
    if forall i :: 0 <= i < |messages| ==> Tame(messages[i]) {
      forall n | 0 <= n <= |messages| ensures Intact(messages[..n]) {
        TameIntact(messages[..n]);
      }
    } else {
      var n := FirstUntame(messages, |messages|);
      assert messages[..n + 1] == messages[..n] + [messages[n]];
      LastMessageShows(messages[..n], messages[n]);
    }
  }

  lemma {:induction false} FirstUntame(messages: seq<Message>, k: nat) returns (n: nat)
    requires k <= |messages| && exists i :: 0 <= i < k && !Tame(messages[i])
    ensures n < k && !Tame(messages[n]) && forall i :: 0 <= i < n ==> Tame(messages[i])
  {
    if i :| 0 <= i < k - 1 && !Tame(messages[i]) {
      n := FirstUntame(messages, k - 1);
    } else {
      n := k - 1;
    }
  }

  /** The messages of a log are written: a blank hint is refused. */
  lemma {:induction false} MessagesWritten(log: seq<Event>, x: Label, lo: nat, hi: nat)
    requires hi <= |log|
    ensures Written(Messages(log, x, lo, hi))
  {
    if lo < hi {
      MessagesWritten(log, x, lo, hi - 1);
      HintNotBlank(log, hi - 1, x);
    }
  }

  lemma HintNotBlank(log: seq<Event>, j: nat, x: Label)
    requires j < |log|
    ensures var message := MessageAt(log, j, x);
            message.Some? && message.value.Hinted? ==> Strip(message.value.hint) != ""
  {
  }

  // ---- refusals that say nothing ----

  /** What the latest refusal with a hint that is not blank said. */
  function LatestNonBlank(messages: seq<Message>): string {
    if messages == [] then ""
    else
      var earlier, last := messages[..|messages| - 1], messages[|messages| - 1];
      if last.Judged? && last.run.verdict != "accepted" && RStrip(last.run.hint) != "" then RStrip(last.run.hint)
      else LatestNonBlank(earlier)
  }

  lemma {:induction false} LatestOrBlank(messages: seq<Message>)
    ensures LatestVerifier(messages) == "" || LatestVerifier(messages) == LatestNonBlank(messages)
  {
    if messages != [] {
      LatestOrBlank(messages[..|messages| - 1]);
    }
  }

  lemma ListedApart(a: string, b: string, users: seq<string>)
    ensures Listed(a, users) == Listed(b, users) <==> a == b
  {
    if a != "" && b != "" && a != b {
      assert Listed(a, users)[0] != Listed(b, users)[0];
    }
  }

  /** After a tame run the field still holds the latest verifier section that said something
      exactly when there was none or no refusal with a blank hint has come since. */
  lemma NonBlankKept(messages: seq<Message>)
    requires forall i :: 0 <= i < |messages| ==> Tame(messages[i])
    ensures SplitsInto(HintAfter(messages), Listed(LatestNonBlank(messages), UserHints(messages)))
       <==> LatestNonBlank(messages) == "" || LatestVerifier(messages) != ""
  {
    TameIntact(messages);
    LatestOrBlank(messages);
    ListedApart(LatestNonBlank(messages), LatestVerifier(messages), UserHints(messages));
  }

  /** The same for the stored hint of any node in any reachable state. */
  lemma StoredNonBlank(log: seq<Event>, x: Label)
    requires x in Replay(log).nodes
    requires forall m :: m in Messages(log, x, SinceClear(log, x, |log|), |log|) ==> Tame(m)
    ensures var messages := Messages(log, x, SinceClear(log, x, |log|), |log|);
            SplitsInto(Replay(log).nodes[x].hint, Listed(LatestNonBlank(messages), UserHints(messages)))
            <==> LatestNonBlank(messages) == "" || LatestVerifier(messages) != ""
  {
    TakeAll(log);
    HintHistory(log, x, |log|);
    NonBlankKept(Messages(log, x, SinceClear(log, x, |log|), |log|));
  }
}
