/** The string operations the projector relies on: Python's strip family, split and
    join on a separator, str.partition, and the \ref{...} scanner. */
module Texts {
  import opened Labels

  /** The characters for which Python's str.isspace() holds. */
  predicate IsSpace(c: char) {
    var n := c as int;
    || n == 0x20 || 0x09 <= n <= 0x0d || 0x1c <= n <= 0x1f || n == 0x85 || n == 0xa0
    || n == 0x1680 || 0x2000 <= n <= 0x200a || n == 0x2028 || n == 0x2029
    || n == 0x202f || n == 0x205f || n == 0x3000
  }

  function LStrip(s: string): (r: string)
    ensures |r| <= |s|
    ensures r == "" || !IsSpace(r[0])
  {
    if s != "" && IsSpace(s[0]) then LStrip(s[1..]) else s
  }

  function RStrip(s: string): (r: string)
    ensures r <= s
    ensures r == "" || !IsSpace(r[|r| - 1])
  {
    if s != "" && IsSpace(s[|s| - 1]) then RStrip(s[..|s| - 1]) else s
  }

  function Strip(s: string): string {
    RStrip(LStrip(s))
  }

  /** Index of the first c at or after i, or |s|. */
  function IndexFrom(s: string, c: char, i: nat): (k: nat)
    requires i <= |s|
    ensures i <= k <= |s|
    ensures c !in s[i..k]
    ensures k < |s| ==> s[k] == c
    decreases |s| - i
  {
    if i == |s| || s[i] == c then i else IndexFrom(s, c, i + 1)
  }

  // The regular expression \\ref\{([^}]+)\} scanned from left to right.
  const REF_OPEN := "\\ref{"

  function RefGroups(text: string): seq<string>
    decreases |text|
  {
    if |text| < |REF_OPEN| then []
    else if REF_OPEN <= text then
      var close := IndexFrom(text, '}', |REF_OPEN|);
      if |REF_OPEN| < close < |text| then
        [text[|REF_OPEN|..close]] + RefGroups(text[close + 1..])
      else RefGroups(text[1..])
    else RefGroups(text[1..])
  }

  /** Stripped, non-empty groups in order of first appearance. */
  function FirstAppearances(groups: seq<string>, seen: seq<Label>): (r: seq<Label>)
    requires Distinct(seen)
    ensures Distinct(r) && seen <= r
    decreases |groups|
  {
    if groups == [] then seen
    else
      var name := Strip(groups[0]);
      if name != "" && name !in seen then FirstAppearances(groups[1..], seen + [name])
      else FirstAppearances(groups[1..], seen)
  }

  /** The labels a node cites, in its statement and its proof. */
  function RefsOf(statement: string, proof: string): (r: seq<Label>)
    ensures Distinct(r)
  {
    FirstAppearances(RefGroups(statement + "\n" + proof), [])
  }
}
