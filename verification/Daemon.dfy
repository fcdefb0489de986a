/** The librarian's treatment of one event: project it, then bring nodes/ up to date
    (librarian/daemon.py, _apply_path). */
module Daemon {
  import opened Invariants
  import opened Projection
  import opened ProjectorImpl
  import opened Rendering
  import opened Search
  import opened Store

  lemma MirrorOfSameNodes(before: Db, after: Db, files: Files)
    requires before.nodes == after.nodes && before.edges == after.edges && Mirrors(before, files)
    ensures Mirrors(after, files)
  {
    forall x | x in after.nodes ensures FileCurrent(after, files, x) {
      assert FileCurrent(before, files, x);
    }
  }

  /** A refused or corrupt event leaves rows and edges alone. */
  lemma RefusedChangesNothing(db: Db, event: Event)
    requires Projection.Apply(db, event).1 != Applied
    ensures Projection.Apply(db, event).0.nodes == db.nodes && Projection.Apply(db, event).0.edges == db.edges
  {
  }

  class Librarian {
    const projector: Projector
    const nodesDir: NodesDir

    constructor (projector: Projector, nodesDir: NodesDir)
      ensures this.projector == projector && this.nodesDir == nodesDir
    {
      this.projector, this.nodesDir := projector, nodesDir;
    }

    /** The store takes the projector's step, and nodes/ mirrors it again, whatever the outcome. */
    method ApplyPath(event: Event) returns (result: ApplyResult)
      requires Valid(projector.kb.State()) && projector.kb.saved == None
      requires Mirrors(projector.kb.State(), nodesDir.files)
      modifies projector.kb, nodesDir
      ensures (projector.kb.State(), result) == Projection.Apply(old(projector.kb.State()), event)
      ensures Valid(projector.kb.State()) && projector.kb.saved == None
      ensures Mirrors(projector.kb.State(), nodesDir.files) && SameForeign(old(nodesDir.files), nodesDir.files)
    {
      ghost var before := projector.kb.State();
      result := projector.Apply(event);
      if result == Applied {
        nodesDir.RenderForEvent(projector.kb, event, before);
      } else {
        RefusedChangesNothing(before, event);
        MirrorOfSameNodes(before, projector.kb.State(), nodesDir.files);
      }
    }
  }
}
