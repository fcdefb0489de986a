/** The nodes/ directory and its incremental upkeep (librarian/renderer.py, librarian/daemon.py). */
module Rendering {
  import opened Backend
  import opened EdgeHashes
  import opened Footprint
  import opened Graphs
  import opened Hashing
  import opened Invariants
  import opened Labels
  import opened MerkleCascade
  import opened Projection
  import opened RowHistory
  import opened Search
  import opened Store
  import opened TextLaws
  import opened Texts

  /** What render_node puts into the file: the frontmatter fields and the stripped sections. */
  datatype Document = Document(name: Label, kind: Kind, passCount: int, statementHash: Hash, verificationHash: Hash,
                               dependsOn: set<Label>, sourceNote: string, remark: string, statement: string,
                               proof: string)

  datatype Content = Rendered(document: Document) | Foreign(text: string)

  type Files = map<string, Content>

  function Render(db: Db, name: Label): Content
    requires name in db.nodes
  {
    var row := db.nodes[name];
    Rendered(Document(name, row.kind, row.passCount, row.statementHash, row.verificationHash, DepsOf(db.edges, name),
                      Strip(row.sourceNote), Strip(row.remark), Strip(row.statement), Strip(row.proof)))
  }

  /** node_filename; None where the source raises ValueError. */
  function Filename(name: Label, kind: Kind): Option<string> {
    var colon := IndexFrom(name, ':', 0);
    if colon == |name| || name[..colon] != KindPrefix(kind) then None
    else Some(name[..colon] + "_" + name[colon + 1..] + ".md")
  }

  /** entry.name.split("_", 1)[0] */
  function FilePrefix(file: string): string {
    file[..IndexFrom(file, '_', 0)]
  }

  predicate KnownPrefix(file: string) {
    FilePrefix(file) in {"def", "ext", "lem", "thm", "prop"}
  }

  const TMP := ".tmp"

  predicate IsTmp(file: string) {
    |file| >= |TMP| && file[|file| - |TMP|..] == TMP
  }

  /** The known prefixes are those of the kinds, up to the first underscore of the file name. */
  lemma KnownPrefixExact(file: string)
    ensures KnownPrefix(file) <==> exists kind :: file == KindPrefix(kind) || KindPrefix(kind) + "_" <= file
  {
    var i := IndexFrom(file, '_', 0);
    if KnownPrefix(file) {
      var kind := if FilePrefix(file) == "def" then Definition else if FilePrefix(file) == "ext" then ExternalTheorem
      else if FilePrefix(file) == "lem" then Lemma else if FilePrefix(file) == "thm" then Theorem else Proposition;
      assert FilePrefix(file) == KindPrefix(kind);
      if i < |file| {
        assert file[..i + 1] == KindPrefix(kind) + "_";
      } else {
        assert file[..i] == file;
      }
    }
    if kind :| file == KindPrefix(kind) || KindPrefix(kind) + "_" <= file {
      PrefixHasNoUnderscore(kind);
      PrefixFirst(file, KindPrefix(kind));
    }
  }

  lemma PrefixFirst(file: string, prefix: string)
    requires '_' !in prefix && (file == prefix || prefix + "_" <= file)
    ensures FilePrefix(file) == prefix
  {
    if file == prefix {
      var i := IndexFrom(file, '_', 0);
      assert forall k :: 0 <= k < |file| ==> file[k] != '_';
      assert file[..|file|] == file;
    } else {
      assert file == prefix + ['_'] + file[|prefix| + 1..];
      IndexOfAppended(prefix, '_', file[|prefix| + 1..]);
    }
  }

  lemma TmpExact(file: string)
    ensures IsTmp(file) <==> exists stem :: file == stem + ".tmp"
  {
    if IsTmp(file) {
      assert file == file[..|file| - 4] + ".tmp";
    }
  }

  lemma IndexOfAppended(p: string, c: char, s: string)
    requires c !in p
    ensures IndexFrom(p + [c] + s, c, 0) == |p|
  {
    var t := p + [c] + s;
    assert t[|p|] == c && forall i :: 0 <= i < |p| ==> t[i] == p[i];
    assert forall k :: |p| < k <= |t| ==> t[0..k][|p|] == c;
  }

  lemma PrefixHasNoUnderscore(kind: Kind)
    ensures '_' !in KindPrefix(kind) && KindPrefix(kind) in {"def", "ext", "lem", "thm", "prop"}
  {
  }

  /** A node file's name starts with its kind's prefix. */
  lemma FilenameShape(name: Label, kind: Kind)
    requires Filename(name, kind).Some?
    ensures FilePrefix(Filename(name, kind).value) == KindPrefix(kind) && KnownPrefix(Filename(name, kind).value)
    ensures !IsTmp(Filename(name, kind).value)
    ensures exists slug :: name == KindPrefix(kind) + ":" + slug
                           && Filename(name, kind).value == KindPrefix(kind) + "_" + slug + ".md"
  {
    var colon := IndexFrom(name, ':', 0);
    var slug := name[colon + 1..];
    PrefixHasNoUnderscore(kind);
    IndexOfAppended(KindPrefix(kind), '_', slug + ".md");
    assert name == KindPrefix(kind) + ":" + slug;
    var file := Filename(name, kind).value;
    assert file == KindPrefix(kind) + "_" + (slug + ".md");
    assert file == KindPrefix(kind) + "_" + slug + ".md";
    assert file[|file| - 1] == 'd';
  }

  /** Different nodes have different files. */
  lemma FilenameInjective(a: Label, kindA: Kind, b: Label, kindB: Kind)
    requires Filename(a, kindA).Some? && Filename(a, kindA) == Filename(b, kindB)
    ensures a == b
  {
    FilenameShape(a, kindA);
    FilenameShape(b, kindB);
    var p := KindPrefix(kindA);
    var s :| a == p + ":" + s && Filename(a, kindA).value == p + "_" + s + ".md";
    var t :| b == p + ":" + t && Filename(b, kindB).value == p + "_" + t + ".md";
    var file := Filename(a, kindA).value;
    assert file[|p| + 1..|file| - 3] == s && file[|p| + 1..|file| - 3] == t;
  }

  lemma ValidFilename(db: Db, x: Label)
    requires Valid(db) && x in db.nodes
    ensures Filename(x, db.nodes[x].kind).Some?
  {
    assert LabelFits(x, db.nodes[x].kind);
  }

  function FileOf(db: Db, x: Label): string
    requires x in db.nodes && Filename(x, db.nodes[x].kind).Some?
  {
    Filename(x, db.nodes[x].kind).value
  }

  predicate Published(db: Db, x: Label) {
    x in db.nodes && db.nodes[x].passCount >= 1
  }

  /** The file of x is there with the current rendering exactly when x is published. */
  ghost predicate FileCurrent(db: Db, files: Files, x: Label)
    requires x in db.nodes && Filename(x, db.nodes[x].kind).Some?
  {
    if Published(db, x) then FileOf(db, x) in files && files[FileOf(db, x)] == Render(db, x)
    else FileOf(db, x) !in files
  }

  /** nodes/ mirrors the store: every node's file is current, and every file with a known prefix
      belongs to a node. */
  ghost predicate Mirrors(db: Db, files: Files) {
    && (forall x :: x in db.nodes ==> Filename(x, db.nodes[x].kind).Some? && FileCurrent(db, files, x))
    && (forall f :: f in files && KnownPrefix(f) ==>
                      exists x :: x in db.nodes && Filename(x, db.nodes[x].kind) == Some(f))
  }

  lemma FilesDiffer(db: Db, x: Label, y: Label)
    requires Valid(db) && x in db.nodes && y in db.nodes && x != y
    requires Filename(x, db.nodes[x].kind).Some? && Filename(y, db.nodes[y].kind).Some?
    ensures FileOf(db, x) != FileOf(db, y)
  {
    if FileOf(db, x) == FileOf(db, y) {
      FilenameInjective(x, db.nodes[x].kind, y, db.nodes[y].kind);
    }
  }

  /** Untouched nodes keep their file name, their publication and their rendering. */
  lemma UntouchedStaysCurrent(db: Db, db': Db, files: Files, x: Label)
    requires x in db.nodes && x in db'.nodes && Untouched(db, db', x) && Filename(x, db.nodes[x].kind).Some?
    ensures Filename(x, db'.nodes[x].kind) == Filename(x, db.nodes[x].kind)
    ensures FileCurrent(db', files, x) <==> FileCurrent(db, files, x)
  {
  }

  class NodesDir {
    var files: Files

    constructor ()
      ensures files == map[]
    {
      files := map[];
    }

    /** write_node_file: the temporary file is renamed into place, so it never shows. */
    method Write(file: string, content: Content)
      modifies this
      ensures files == old(files)[file := content]
    {
      files := files[file := content];
    }

    method Unlink(file: string)
      modifies this
      ensures files == old(files) - {file}
    {
      files := files - {file};
    }

    /** Brings the file of one node up to date. */
    method RenderNode(kb: KuzuBackend, x: Label)
      requires x in kb.nodes && Filename(x, kb.nodes[x].kind).Some?
      modifies this
      ensures FileCurrent(kb.State(), files, x)
      ensures forall f :: f != FileOf(kb.State(), x) ==> SameFile(old(files), files, f)
    {
      var file := Filename(x, kb.nodes[x].kind).value;
      if kb.nodes[x].passCount >= 1 {
        Write(file, Render(Db(kb.nodes, kb.edges, kb.applied), x));
      } else {
        Unlink(file);
      }
    }

    /** The walk of _render_for_event: everything that depends on a named label, and the labels. */
    method Cone(kb: KuzuBackend, named: set<Label>) returns (seen: set<Label>)
      requires EdgesInside(kb.nodes, kb.edges)
      ensures forall x :: x in seen <==> InCone(kb.edges, named, x)
    {
      seen := {};
      var toVisit := SortedLabels(named);
      ghost var db, pending := kb.State(), named;
      ghost var universe := named + db.nodes.Keys;
      ConeStart(db.edges, named);
      SortedElements(named);
      while toVisit != []
        invariant kb.State() == db
        invariant pending == Elements(toVisit) && seen <= universe && pending <= universe
        invariant ConeSoFar(db.edges, named, seen, pending)
        decreases universe - seen, |toVisit|
      {
        var x := toVisit[|toVisit| - 1];
        var more := kb.DependentsOf(x);
        DropLast(toVisit);
        toVisit := toVisit[..|toVisit| - 1];
        ghost var rest := Elements(toVisit);
        ConeVisit(db.edges, named, seen, pending, rest, DependentsOf(db.edges, x), x);
        pending := rest;
        if x !in seen {
          ConeGrows(db, universe, seen, x);
          seen := seen + {x};
          ElementsConcat(toVisit, more);
          SortedElements(DependentsOf(db.edges, x));
          toVisit, pending := toVisit + more, rest + DependentsOf(db.edges, x);
        }
      }
      ConeDone(kb.edges, named, seen);
    }

    /** The rewriting loop of _render_for_event. */
    method RenderOrSkip(kb: KuzuBackend, x: Label, ghost first: Files, ghost pending: set<Label>,
                        ghost rest: set<Label>)
      requires Valid(kb.State()) && MirrorsBut(kb.State(), files, pending) && pending == rest + {x}
      requires SameForeign(first, files)
      modifies this
      ensures MirrorsBut(kb.State(), files, rest) && SameForeign(first, files)
    {
      ghost var earlier := files;
      if x in kb.nodes {
        RenderNode(kb, x);
        MirrorStep(kb.State(), first, earlier, files, pending, rest, x);
      } else {
        MirrorSkip(kb.State(), files, pending, rest, x);
      }
    }

    method RenderAll(kb: KuzuBackend, seen: set<Label>)
      requires Valid(kb.State()) && MirrorsBut(kb.State(), files, seen)
      modifies this
      ensures Mirrors(kb.State(), files) && SameForeign(old(files), files)
    {
      ghost var db, first := kb.State(), files;
      ghost var pending := seen;
      var names := SortedLabels(seen);
      var i := 0;
      SortedElements(seen);
      assert names[0..] == names;
      while i < |names|
        invariant 0 <= i <= |names| && kb.State() == db && pending == Elements(names[i..])
        invariant MirrorsBut(db, files, pending) && SameForeign(first, files)
      {
        var x := names[i];
        ghost var rest := Elements(names[i + 1..]);
        DropFirst(names, i);
        RenderOrSkip(kb, x, first, pending, rest);
        i, pending := i + 1, rest;
      }
    }

    /** _render_for_event: after an applied event the directory mirrors the new store, if it
        mirrored the store before; files with unknown prefixes keep their content. */
    method RenderForEvent(kb: KuzuBackend, event: Event, ghost before: Db)
      requires Valid(before) && Apply(before, event) == (kb.State(), Applied) && Mirrors(before, files)
      modifies this
      ensures Mirrors(kb.State(), files) && SameForeign(old(files), files)
    {
      ApplyKeepsValid(before, event);
      var seen := Cone(kb, Named(event));
      ConeCovers(before, event, kb.State(), files, seen);
      RenderAll(kb, seen);
    }

    /** _reconcile_nodes_dir: whatever the directory held, it mirrors the store afterwards;
        temporary files are gone and other files with unknown prefixes keep their content. */
    method Reconcile(kb: KuzuBackend)
      requires Valid(kb.State())
      modifies this
      ensures Mirrors(kb.State(), files)
      ensures forall f :: f in files ==> !IsTmp(f)
      ensures forall f :: !KnownPrefix(f) && !IsTmp(f) ==> SameFile(old(files), files, f)
    {
      ghost var db, first := kb.State(), files;
      AllFilenames(db);
      var active := WritePublished(kb);
      ghost var written := files;
      var entries := files.Keys;
      while entries != {}
        invariant Swept(written, files, active, entries)
        decreases entries
      {
        var f :| f in entries;
        SweepStep(written, files, active, entries, f);
        entries := entries - {f};
        if Stray(active, f) {
          Unlink(f);
        }
      }
      ReconcileMirrors(db, active, first, written, files);
    }

    /** Writes the file of every published node. */
    method WritePublished(kb: KuzuBackend) returns (active: set<string>)
      requires Valid(kb.State())
      modifies this
      ensures ActiveFiles(kb.State(), active) && active <= files.Keys
      ensures forall x :: Published(kb.State(), x) ==> FileCurrent(kb.State(), files, x)
      ensures forall f :: f !in active ==> SameFile(old(files), files, f)
    {
      ghost var db, first := kb.State(), files;
      AllFilenames(db);
      active := {};
      var names := SortedLabels(kb.nodes.Keys);
      var i := 0;
      while i < |names|
        invariant 0 <= i <= |names|
        invariant WrittenSoFar(db, first, files, active, Elements(names[..i]))
      {
        var x := names[i];
        ghost var earlier, done := files, Elements(names[..i]);
        TakeElements(names, i);
        if kb.nodes[x].passCount >= 1 {
          RenderNode(kb, x);
          WriteStep(db, first, earlier, files, active, done, x);
          active := active + {Filename(x, kb.nodes[x].kind).value};
        }
        i := i + 1;
      }
      TakeAll(names);
      WrittenAll(db, first, files, active);
    }
  }

  ghost predicate SameFile(before: Files, after: Files, f: string) {
    (f in after <==> f in before) && (f in before && f in after ==> after[f] == before[f])
  }

  /** The files that cannot belong to a node are the same in both. */
  ghost predicate SameForeign(before: Files, after: Files) {
    forall f :: !KnownPrefix(f) ==> SameFile(before, after, f)
  }

  /** Whether the sweep deletes a file it comes to. */
  predicate Stray(active: set<string>, f: string) {
    IsTmp(f) || (f !in active && KnownPrefix(f))
  }

  /** Exactly the stray files that are no longer among entries are deleted. */
  ghost predicate Swept(written: Files, files: Files, active: set<string>, entries: set<string>) {
    && entries <= written.Keys
    && (forall f :: f in files <==> f in written && (f in entries || !Stray(active, f)))
    && (forall f :: f in files && f in written ==> files[f] == written[f])
  }

  lemma SweepStep(written: Files, files: Files, active: set<string>, entries: set<string>, f: string)
    requires Swept(written, files, active, entries) && f in entries
    ensures Swept(written, if Stray(active, f) then files - {f} else files, active, entries - {f})
  {
  }

  lemma SortedElements(s: set<Label>)
    ensures Elements(SortedLabels(s)) == s
  {
  }

  lemma ConeGrows(db: Db, universe: set<Label>, seen: set<Label>, x: Label)
    requires EdgesInside(db.nodes, db.edges) && db.nodes.Keys <= universe && x in universe && x !in seen
    ensures DependentsOf(db.edges, x) <= universe && universe - (seen + {x}) < universe - seen
  {
    assert x in universe - seen;
  }

  lemma DropLast<T>(q: seq<T>)
    requires q != []
    ensures Elements(q) == Elements(q[..|q| - 1]) + {q[|q| - 1]}
  {
    assert q == q[..|q| - 1] + [q[|q| - 1]];
  }

  lemma DropFirst<T>(q: seq<T>, i: nat)
    requires i < |q|
    ensures Elements(q[i..]) == {q[i]} + Elements(q[i + 1..])
  {
    assert q[i..] == [q[i]] + q[i + 1..];
  }

  lemma ElementsConcat<T>(a: seq<T>, b: seq<T>)
    ensures Elements(a + b) == Elements(a) + Elements(b)
  {
  }

  /** The nodes outside the walk are untouched, so their files are current already. */
  lemma ConeCovers(before: Db, event: Event, db: Db, files: Files, seen: set<Label>)
    requires Valid(before) && Apply(before, event) == (db, Applied) && Mirrors(before, files)
    requires forall x :: x in seen <==> InCone(db.edges, Named(event), x)
    ensures Valid(db) && MirrorsBut(db, files, seen)
  {
    ApplyKeepsValid(before, event);
    forall x | x !in seen ensures Untouched(before, db, x) {
      FootprintOf(before, event, x);
    }
    NodesKept(before, event);
    AllFilenames(db);
    forall x | x in before.nodes
      ensures x in db.nodes && Filename(x, db.nodes[x].kind) == Filename(x, before.nodes[x].kind) {
      FilenameKindFree(x, before.nodes[x].kind, db.nodes[x].kind);
    }
    MirrorStart(before, db, files, seen);
  }

  /** The kind is only checked against the label's prefix. */
  lemma FilenameKindFree(name: Label, a: Kind, b: Kind)
    requires Filename(name, a).Some? && Filename(name, b).Some?
    ensures Filename(name, a) == Filename(name, b)
  {
  }

  lemma AllFilenames(db: Db)
    requires Valid(db)
    ensures forall x :: x in db.nodes ==> Filename(x, db.nodes[x].kind).Some?
  {
    forall x | x in db.nodes ensures Filename(x, db.nodes[x].kind).Some? {
      ValidFilename(db, x);
    }
  }

  /** The mirror with the files of some nodes still to be brought up to date. */
  ghost predicate MirrorsBut(db: Db, files: Files, pending: set<Label>) {
    && (forall x :: x in db.nodes ==> Filename(x, db.nodes[x].kind).Some?)
    && (forall x :: x in db.nodes && x !in pending ==> FileCurrent(db, files, x))
    && (forall f :: f in files && KnownPrefix(f) ==>
                      exists x :: x in db.nodes && Filename(x, db.nodes[x].kind) == Some(f))
  }

  lemma MirrorStart(before: Db, db: Db, files: Files, seen: set<Label>)
    requires Valid(db) && Mirrors(before, files) && forall x :: x !in seen ==> Untouched(before, db, x)
    requires forall x :: x in before.nodes ==>
                           x in db.nodes && Filename(x, db.nodes[x].kind) == Filename(x, before.nodes[x].kind)
    ensures MirrorsBut(db, files, seen)
  {
    AllFilenames(db);
    forall x | x in db.nodes && x !in seen ensures FileCurrent(db, files, x) {
      assert Untouched(before, db, x);
      UntouchedStaysCurrent(before, db, files, x);
    }
    forall f | f in files && KnownPrefix(f)
      ensures exists x :: x in db.nodes && Filename(x, db.nodes[x].kind) == Some(f) {
      var x :| x in before.nodes && Filename(x, before.nodes[x].kind) == Some(f);
      assert x in db.nodes;
    }
  }

  lemma ForeignStep(db: Db, first: Files, earlier: Files, files: Files, x: Label)
    requires x in db.nodes && Filename(x, db.nodes[x].kind).Some? && SameForeign(first, earlier)
    requires forall f :: f != FileOf(db, x) ==> SameFile(earlier, files, f)
    ensures SameForeign(first, files)
  {
    FilenameShape(x, db.nodes[x].kind);
    forall f | !KnownPrefix(f) ensures SameFile(first, files, f) {
      assert SameFile(first, earlier, f) && SameFile(earlier, files, f);
    }
  }

  lemma MirrorStep(db: Db, first: Files, earlier: Files, files: Files, pending: set<Label>, rest: set<Label>, x: Label)
    requires Valid(db) && MirrorsBut(db, earlier, pending) && x in db.nodes && pending == rest + {x}
    requires FileCurrent(db, files, x) && SameForeign(first, earlier)
    requires forall f :: f != FileOf(db, x) ==> SameFile(earlier, files, f)
    ensures MirrorsBut(db, files, rest) && SameForeign(first, files)
  {
    ForeignStep(db, first, earlier, files, x);
    forall y | y in db.nodes && y !in rest ensures FileCurrent(db, files, y) {
      if y != x {
        FilesDiffer(db, x, y);
        assert FileCurrent(db, earlier, y) && SameFile(earlier, files, FileOf(db, y));
      }
    }
    forall f | f in files && KnownPrefix(f)
      ensures exists y :: y in db.nodes && Filename(y, db.nodes[y].kind) == Some(f) {
      if f == FileOf(db, x) {
        assert Filename(x, db.nodes[x].kind) == Some(f);
      } else {
        assert SameFile(earlier, files, f);
      }
    }
  }

  lemma MirrorSkip(db: Db, files: Files, pending: set<Label>, rest: set<Label>, x: Label)
    requires MirrorsBut(db, files, pending) && x !in db.nodes && pending == rest + {x}
    ensures MirrorsBut(db, files, rest)
  {
  }

  /** active holds exactly the file names of the published nodes. */
  ghost predicate ActiveFiles(db: Db, active: set<string>) {
    forall f :: f in active <==> exists x :: Published(db, x) && Filename(x, db.nodes[x].kind) == Some(f)
  }

  lemma ReconcileMirrors(db: Db, active: set<string>, first: Files, written: Files, files: Files)
    requires Valid(db) && ActiveFiles(db, active) && active <= written.Keys && Swept(written, files, active, {})
    requires forall x :: Published(db, x) ==> Filename(x, db.nodes[x].kind).Some? && FileCurrent(db, written, x)
    requires forall f :: f !in active ==> SameFile(first, written, f)
    ensures Mirrors(db, files)
    ensures forall f :: f in files ==> !IsTmp(f)
    ensures forall f :: !KnownPrefix(f) && !IsTmp(f) ==> SameFile(first, files, f)
  {
    AllFilenames(db);
    forall x | x in db.nodes ensures FileCurrent(db, files, x) {
      var f := FileOf(db, x);
      FilenameShape(x, db.nodes[x].kind);
      if Published(db, x) {
        assert f in active;
      } else if f in files {
        assert f in active;
        var y :| Published(db, y) && Filename(y, db.nodes[y].kind) == Some(f);
        FilesDiffer(db, x, y);
      }
    }
    forall f | f in files && KnownPrefix(f)
      ensures exists x :: x in db.nodes && Filename(x, db.nodes[x].kind) == Some(f) {
      assert f in active;
    }
    forall f | !KnownPrefix(f) && !IsTmp(f) ensures SameFile(first, files, f) {
      ActiveKnown(db, active, f);
    }
  }

  lemma ActiveKnown(db: Db, active: set<string>, f: string)
    requires Valid(db) && ActiveFiles(db, active)
    ensures f in active ==> KnownPrefix(f)
  {
    if f in active {
      var x :| Published(db, x) && Filename(x, db.nodes[x].kind) == Some(f);
      FilenameShape(x, db.nodes[x].kind);
    }
  }

  lemma TakeElements<T>(q: seq<T>, i: nat)
    requires i < |q|
    ensures Elements(q[..i + 1]) == Elements(q[..i]) + {q[i]}
  {
    TakeStep(q, i);
  }

  /** The published nodes among done have their files written, and nothing else changed. */
  ghost predicate WrittenSoFar(db: Db, first: Files, files: Files, active: set<string>, done: set<Label>) {
    && (forall x :: x in db.nodes ==> Filename(x, db.nodes[x].kind).Some?)
    && (forall f :: f in active
                    <==> exists x :: x in done && Published(db, x) && Filename(x, db.nodes[x].kind) == Some(f))
    && (forall x :: x in done && Published(db, x) ==> FileCurrent(db, files, x))
    && (forall f :: f !in active ==> SameFile(first, files, f))
  }

  lemma WriteStep(db: Db, first: Files, earlier: Files, files: Files, active: set<string>, done: set<Label>, x: Label)
    requires Valid(db) && WrittenSoFar(db, first, earlier, active, done) && Published(db, x)
    requires FileCurrent(db, files, x)
    requires forall f :: f != FileOf(db, x) ==> SameFile(earlier, files, f)
    ensures WrittenSoFar(db, first, files, active + {FileOf(db, x)}, done + {x})
  {
    forall y | y in done && Published(db, y) ensures FileCurrent(db, files, y) {
      if y != x {
        FilesDiffer(db, x, y);
        assert FileCurrent(db, earlier, y) && SameFile(earlier, files, FileOf(db, y));
      }
    }
    forall f | f !in active + {FileOf(db, x)} ensures SameFile(first, files, f) {
      assert SameFile(earlier, files, f);
    }
  }

  lemma WrittenAll(db: Db, first: Files, files: Files, active: set<string>)
    requires WrittenSoFar(db, first, files, active, db.nodes.Keys)
    ensures ActiveFiles(db, active) && active <= files.Keys
    ensures forall x :: Published(db, x) ==> FileCurrent(db, files, x)
    ensures forall f :: f !in active ==> SameFile(first, files, f)
  {
    forall f | f in active ensures f in files {
      var x :| x in db.nodes && Published(db, x) && Filename(x, db.nodes[x].kind) == Some(f);
      assert FileCurrent(db, files, x);
    }
  }

  // ---- what a node file shows ----

  /** The document of a node, read against its row; the hashes certify label, kind, statement, proof
      and dependencies without the store. */
  ghost predicate Certified(db: Db, doc: Document) {
    && doc.name in db.nodes && doc.passCount == db.nodes[doc.name].passCount && doc.passCount >= 1
    && IsStripped(db.nodes[doc.name].remark, doc.remark) && IsStripped(db.nodes[doc.name].sourceNote, doc.sourceNote)
    && CertifiesText(doc) && CertifiesDeps(doc)
  }

  ghost predicate CertifiesText(doc: Document) {
    && doc.statementHash.StatementHash? && doc.statementHash.name == doc.name && doc.statementHash.kind == doc.kind
    && IsStripped(doc.statementHash.statement, doc.statement)
    && exists proof :: IsStripped(proof, doc.proof)
                       && doc.verificationHash == VerificationHash(doc.statementHash, proof)
  }

  ghost predicate CertifiesDeps(doc: Document) {
    forall d :: d in doc.dependsOn <==> Commits(doc.statementHash, d)
  }

  ghost predicate FileNamed(f: string, name: Label) {
    exists prefix, slug :: name == prefix + ":" + slug && f == prefix + "_" + slug + ".md"
  }

  lemma RenderCertified(log: seq<Event>, x: Label)
    requires x in Replay(log).nodes && Replay(log).nodes[x].passCount >= 1
    ensures Render(Replay(log), x).Rendered? && Render(Replay(log), x).document.name == x
    ensures Certified(Replay(log), Render(Replay(log), x).document)
  {
    var db := Replay(log);
    ReplayValid(log);
    ReplayCommitted(log);
    ReplayReadable(log);
    RowCertified(db, x);
  }

  lemma RowCertified(db: Db, x: Label)
    requires Valid(db) && HashesOwn(db) && EdgesReadable(db.nodes, db.edges) && x in db.nodes
    requires db.nodes[x].passCount >= 1
    ensures Certified(db, Render(db, x).document)
  {
    var row, doc := db.nodes[x], Render(db, x).document;
    assert RowValid(row) && OwnHash(x, row) && ReadableAt(db.nodes, db.edges, x);
    StripExact(row.remark);
    StripExact(row.sourceNote);
    StripExact(row.statement);
    StripExact(row.proof);
    forall d ensures d in doc.dependsOn <==> Commits(doc.statementHash, d) {
      assert d in DepsOf(db.edges, x) <==> (x, d) in db.edges;
    }
  }

  /** In any directory that mirrors a reachable store, every file with a known prefix is the file of
      a node with a pass and certifies it, and every node with a pass has such a file. */
  lemma NodeFilesCertify(log: seq<Event>, db: Db, files: Files)
    requires db == Replay(log) && Mirrors(db, files)
    ensures forall f :: f in files && KnownPrefix(f) ==>
                          && files[f].Rendered? && Certified(db, files[f].document)
                          && FileNamed(f, files[f].document.name)
    ensures forall x :: x in db.nodes && db.nodes[x].passCount >= 1 ==>
                          exists f :: f in files && KnownPrefix(f) && files[f].Rendered? && files[f].document.name == x
  {
    forall f | f in files && KnownPrefix(f)
      ensures files[f].Rendered? && Certified(db, files[f].document) && FileNamed(f, files[f].document.name)
    {
      var x :| x in db.nodes && Filename(x, db.nodes[x].kind) == Some(f);
      OwnFile(log, db, files, x);
    }
    forall x | x in db.nodes && db.nodes[x].passCount >= 1
      ensures exists f :: f in files && KnownPrefix(f) && files[f].Rendered? && files[f].document.name == x
    {
      assert FileCurrent(db, files, x);
      OwnFile(log, db, files, x);
    }
  }

  lemma OwnFile(log: seq<Event>, db: Db, files: Files, x: Label)
    requires db == Replay(log) && x in db.nodes && Filename(x, db.nodes[x].kind).Some? && FileCurrent(db, files, x)
    requires FileOf(db, x) in files || db.nodes[x].passCount >= 1
    ensures var f := FileOf(db, x);
            && f in files && KnownPrefix(f) && files[f].Rendered? && files[f].document.name == x
            && Certified(db, files[f].document) && FileNamed(f, x)
  {
    FilenameShape(x, db.nodes[x].kind);
    RenderCertified(log, x);
  }
}
