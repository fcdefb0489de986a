/** Node kinds and the two Merkle hashes (common/kb/types.py, common/kb/hashing.py).
    SHA-256 over canonical JSON is taken as a free constructor of its fields, so equal
    hashes mean equal fields. The sorted dependency list of the source is a map here:
    it has one entry per label, and its order carries no information. */
module Hashing {
  import opened Labels
  import opened Search

  datatype Kind = Definition | ExternalTheorem | Lemma | Theorem | Proposition

  function ParseKind(raw: string): Option<Kind> {
    match raw
    case "definition" => Some(Definition)
    case "external_theorem" => Some(ExternalTheorem)
    case "lemma" => Some(Lemma)
    case "theorem" => Some(Theorem)
    case "proposition" => Some(Proposition)
    case _ => None
  }

  function KindPrefix(kind: Kind): string {
    match kind
    case Definition => "def"
    case ExternalTheorem => "ext"
    case Lemma => "lem"
    case Theorem => "thm"
    case Proposition => "prop"
  }

  predicate RequiresProof(kind: Kind) {
    kind.Lemma? || kind.Theorem? || kind.Proposition?
  }

  function InitialCount(kind: Kind, proof: string): int {
    if RequiresProof(kind) && proof == "" then -1 else 0
  }

  datatype Hash =
    | NoHash  // the empty string
    | StatementHash(name: Label, kind: Kind, statement: string, deps: map<Label, Hash>)
    | VerificationHash(statementHash: Hash, proof: string)
}
