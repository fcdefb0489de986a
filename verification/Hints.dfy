/** The repair_hint field: one verifier section followed by user sections, divided by
    lines "---" (librarian/projector.py, generator/prompt.py). */
module Hints {
  import opened Texts

  const RULE := "\n---\n"
  const USER_HEADER := "[user @ "

  /** Index of the first RULE in s, or |s| when there is none. */
  function FindRule(s: string): (k: nat)
    ensures k <= |s|
    ensures k < |s| ==> RULE <= s[k..]
    ensures forall i :: 0 <= i < k ==> !(RULE <= s[i..])
    decreases |s|
  {
    if s == "" || RULE <= s then
      assert s[0..] == s;
      0
    else
      var k := FindRule(s[1..]);
      assert forall i :: 0 < i <= |s| ==> s[i..] == s[1..][i - 1..];
      k + 1
  }

  function Split(s: string): (pieces: seq<string>)
    ensures |pieces| >= 1
    decreases |s|
  {
    var k := FindRule(s);
    if k == |s| then [s] else [s[..k]] + Split(s[k + |RULE|..])
  }

  function Join(separator: string, pieces: seq<string>): string {
    if pieces == [] then ""
    else if |pieces| == 1 then pieces[0]
    else pieces[0] + separator + Join(separator, pieces[1..])
  }

  predicate IsUserSection(section: string) {
    USER_HEADER <= LStrip(section)
  }

  function UserSections(pieces: seq<string>): seq<string> {
    if pieces == [] then []
    else (if IsUserSection(pieces[0]) then [pieces[0]] else []) + UserSections(pieces[1..])
  }

  function RStripAll(pieces: seq<string>): (r: seq<string>)
    ensures |r| == |pieces|
    ensures forall i :: 0 <= i < |pieces| ==> r[i] == RStrip(pieces[i])
  {
    if pieces == [] then [] else [RStrip(pieces[0])] + RStripAll(pieces[1..])
  }

  function StripAll(pieces: seq<string>): (r: seq<string>)
    ensures |r| == |pieces|
    ensures forall i :: 0 <= i < |pieces| ==> r[i] == Strip(pieces[i])
  {
    if pieces == [] then [] else [Strip(pieces[0])] + StripAll(pieces[1..])
  }

  function WithNewline(s: string): string {
    if s == "" then "" else s + "\n"
  }

  /** librarian/projector.py, _merge_verifier_section. */
  function MergeVerifierSection(existing: string, verifierHint: string): string {
    var section := RStrip(verifierHint);
    if existing == "" then WithNewline(section)
    else
      var pieces := (if section == "" then [] else [section]) + UserSections(Split(existing));
      WithNewline(Join(RULE, RStripAll(pieces)))
  }

  function UserSection(stamp: string, hint: string): string {
    USER_HEADER + stamp + "]\n" + RStrip(hint)
  }

  /** The append in _apply_hint_attached. */
  function AttachUserSection(existing: string, stamp: string, hint: string): string {
    var section := UserSection(stamp, hint) + "\n";
    if existing == "" then section else existing + RULE + section
  }

  /** generator/prompt.py, _user_sections_only. */
  function UserSectionsOnly(repairHint: string): string {
    if repairHint == "" then ""
    else Join("\n\n---\n", UserSections(StripAll(Split(repairHint))))
  }
}
