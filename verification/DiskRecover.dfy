/** Which tree a start-up recovers from a disk (vtpm_load_disk), and why a crash in the
    middle of a sync never loses one. */
module DiskRecover {
  import opened Wrappers
  import opened DiskFormat
  import opened DiskIo

  datatype RootView = RootView(sequence: nat, groups: seq<GroupTree>)

  function RootLoc(root: nat): nat {
    2 + root
  }

  /** find_root_key and load_root_pre succeed for this slot. */
  predicate RootPresent(d: Disk, root: nat) {
    At(d, root) == SealList && At(d, RootLoc(root)).RootSector?
  }

  /** load_root_post: walk the whole tree below the root; group 0 must open. */
  function LoadPost(d: Disk, root: nat): (r: Option<Found<RootView>>) {
    match At(d, RootLoc(root))
    case RootSector(sequence, nrGroups, hashes, locs) =>
      var groups := WalkTree(GroupLeaf, d, nrGroups, hashes, locs, NR_ENTRIES_PER_ROOT);
      if groups.None? || nrGroups == 0 || !groups.value.values[0].meta.info.unsealable then None else
        Some(Found(RootView(sequence, groups.value.values), groups.value.sectors))
    case _ => None
  }

  /** The slot vtpm_load_disk ends up with, and the tree in it. */
  function Recover(d: Disk): Option<(nat, RootView)> {
    var present1, present2 := RootPresent(d, 0), RootPresent(d, 1);
    var newer2 := present1 && present2 && At(d, RootLoc(1)).sequence > At(d, RootLoc(0)).sequence;
    if newer2 && LoadPost(d, 1).Some? then Some((1, LoadPost(d, 1).value.value))
    else if present1 && LoadPost(d, 0).Some? then Some((0, LoadPost(d, 0).value.value))
    else if present2 && !newer2 && LoadPost(d, 1).Some? then Some((1, LoadPost(d, 1).value.value))
    else None
  }

  /** Slot `root` holds a whole tree, newer than anything in the other slot. */
  ghost predicate Committed(d: Disk, root: nat, view: RootView, sectors: set<nat>) {
    && root < 2
    && RootPresent(d, root)
    && LoadPost(d, root) == Some(Found(view, sectors))
    && Dynamic(sectors)
    && (RootPresent(d, 1 - root) ==> At(d, RootLoc(1 - root)).sequence < view.sequence)
  }

  /** Neither slot has both a seal list and a root of this manager. */
  ghost predicate Blank(d: Disk) {
    !RootPresent(d, 0) && !RootPresent(d, 1)
  }

  lemma CommittedRecovers(d: Disk, root: nat, view: RootView, sectors: set<nat>)
    requires Committed(d, root, view, sectors)
    ensures Recover(d) == Some((root, view))
  {}

  lemma BlankRecovers(d: Disk)
    requires Blank(d)
    ensures Recover(d) == None
  {}

  const STATIC_SECTORS: set<nat> := {0, 1, 2, 3}

  lemma LoadPostFrame(d: Disk, d': Disk, root: nat)
    requires LoadPost(d, root).Some?
    requires Agree(d, d', LoadPost(d, root).value.sectors) && At(d, RootLoc(root)) == At(d', RootLoc(root))
    ensures LoadPost(d', root) == LoadPost(d, root)
  {
    GroupLeafFramed();
    var r := At(d, RootLoc(root));
    WalkTreeFrame(GroupLeaf, d, d', r.nrGroups, r.hashes, r.locs, NR_ENTRIES_PER_ROOT);
  }

  lemma LoadPostSequence(d: Disk, root: nat)
    requires LoadPost(d, root).Some?
    ensures At(d, RootLoc(root)).RootSector? && At(d, RootLoc(root)).sequence == LoadPost(d, root).value.value.sequence
  {}

  lemma CommittedFrame(d: Disk, d': Disk, root: nat, view: RootView, sectors: set<nat>)
    requires Committed(d, root, view, sectors)
    requires Agree(d, d', sectors) && Agree(d, d', STATIC_SECTORS)
    ensures Committed(d', root, view, sectors)
  {
    assert forall s :: s in STATIC_SECTORS ==> At(d, s) == At(d', s);
    LoadPostFrame(d, d', root);
  }

  // ----- Crashing in the middle of a sync ------------------------------------------------------

  /** What is on disk before a sync: a committed tree in slot `root`, or nothing. */
  datatype Prior = NoTree | Tree(view: RootView, sectors: set<nat>)

  ghost predicate Holds(d: Disk, root: nat, prior: Prior) {
    match prior
    case NoTree => Blank(d)
    case Tree(view, sectors) => Committed(d, root, view, sectors)
  }

  function PriorSectors(prior: Prior): set<nat> {
    if prior.Tree? then prior.sectors else {}
  }

  function Outcome(prior: Prior, root: nat): Option<(nat, RootView)> {
    if prior.Tree? then Some((root, prior.view)) else None
  }

  /** The whole tree `prior` is what is on disk, and what a start-up finds. */
  ghost predicate Survives(d: Disk, root: nat, prior: Prior) {
    Holds(d, root, prior) && Recover(d) == Outcome(prior, root)
  }

  lemma HoldsSurvives(d: Disk, root: nat, prior: Prior)
    requires Holds(d, root, prior)
    ensures Survives(d, root, prior)
  {
    match prior {
      case NoTree => BlankRecovers(d);
      case Tree(view, sectors) => CommittedRecovers(d, root, view, sectors);
    }
  }

  /** A crash after any number of the writes `ws` leaves the old tree, whole, before the `commit`-th
      write and the new tree, whole, from it on. */
  ghost predicate CrashSafe(d: Disk, ws: seq<Write>, commit: nat, root: nat, before: Prior, root': nat, after: Prior) {
    && 0 < commit <= |ws|
    && forall n :: 0 <= n <= |ws| ==>
         if n < commit then Survives(Replay(d, ws[..n]), root, before) else Survives(Replay(d, ws[..n]), root', after)
  }

  /** A run that stopped before its commit write. */
  ghost predicate OldTreeKept(d: Disk, ws: seq<Write>, root: nat, before: Prior) {
    forall n :: 0 <= n <= |ws| ==> Survives(Replay(d, ws[..n]), root, before)
  }

  /** Writes that stay clear of the old tree and of the static sectors. */
  ghost predicate Shadow(ws: seq<Write>, prior: Prior) {
    forall w :: w in ws ==> w.sector !in STATIC_SECTORS && w.sector !in PriorSectors(prior)
  }

  lemma ShadowHolds(d: Disk, ws: seq<Write>, root: nat, prior: Prior)
    requires root < 2 && Holds(d, root, prior) && Shadow(ws, prior)
    ensures Holds(Replay(d, ws), root, prior)
    ensures Agree(d, Replay(d, ws), STATIC_SECTORS)
  {
    var d' := Replay(d, ws);
    forall s | s in STATIC_SECTORS || s in PriorSectors(prior)
      ensures At(d, s) == At(d', s)
    {
      ReplayUntouched(d, ws, s);
    }
    match prior {
      case NoTree =>
        assert 0 in STATIC_SECTORS && 1 in STATIC_SECTORS && 2 in STATIC_SECTORS && 3 in STATIC_SECTORS;
      case Tree(view, sectors) =>
        CommittedFrame(d, d', root, view, sectors);
    }
  }

  lemma ShadowPrefix(d: Disk, ws: seq<Write>, root: nat, prior: Prior)
    requires root < 2 && Holds(d, root, prior) && Shadow(ws, prior)
    ensures OldTreeKept(d, ws, root, prior)
  {
    forall n | 0 <= n <= |ws|
      ensures Survives(Replay(d, ws[..n]), root, prior)
    {
      assert forall w :: w in ws[..n] ==> w in ws;
      ShadowHolds(d, ws[..n], root, prior);
      HoldsSurvives(Replay(d, ws[..n]), root, prior);
    }
  }

  /** The root write on a disk whose new slot already has a seal list: the commit point. */
  lemma RootWriteCommits(d: Disk, root: nat, prior: Prior, content: Content, view: RootView, sectors: set<nat>)
    requires root < 2 && Holds(d, 1 - root, prior)
    requires content.RootSector? && content.sequence == view.sequence
    requires prior.Tree? ==> prior.view.sequence < view.sequence
    requires Dynamic(sectors)
    requires LoadPost(d[RootLoc(root) := content], root) == Some(Found(view, sectors))
    ensures At(d, root) == SealList ==> Committed(d[RootLoc(root) := content], root, view, sectors)
    ensures At(d, root) != SealList ==> Holds(d[RootLoc(root) := content], 1 - root, prior)
    ensures Committed(d[RootLoc(root) := content][root := SealList], root, view, sectors)
  {
    hide LoadPost;
    if prior.Tree? {
      LoadPostSequence(d, 1 - root);
    }
    var d1 := d[RootLoc(root) := content];
    var d2 := d1[root := SealList];
    LoadPostFrame(d1, d2, root);
    if At(d, root) != SealList && prior.Tree? {
      LoadPostFrame(d, d1, 1 - root);
      assert !RootPresent(d1, root);
    }
  }

  function SyncWrites(dyn: seq<Write>, root: nat, content: Content, sealed: bool): seq<Write> {
    dyn + [Write(RootLoc(root), content)] + if sealed then [Write(root, SealList)] else []
  }

  function CommitIndex(d: Disk, dyn: seq<Write>, root: nat): nat {
    |dyn| + if At(d, root) == SealList then 1 else 2
  }

  /** disk_write_all: shadow writes, then the root sector, then the seal list if the slot had none. */
  lemma SyncCrashSafe(d: Disk, dyn: seq<Write>, root: nat, prior: Prior, content: Content, sealed: bool,
                      view: RootView, sectors: set<nat>)
    requires root < 2 && Holds(d, 1 - root, prior) && Shadow(dyn, prior)
    requires content.RootSector? && content.sequence == view.sequence
    requires prior.Tree? ==> prior.view.sequence < view.sequence
    requires Dynamic(sectors)
    requires LoadPost(Replay(d, dyn)[RootLoc(root) := content], root) == Some(Found(view, sectors))
    requires !sealed ==> At(d, root) == SealList
    ensures CrashSafe(d, SyncWrites(dyn, root, content, sealed), CommitIndex(d, dyn, root), 1 - root, prior, root,
            Tree(view, sectors))
    ensures Committed(Replay(d, SyncWrites(dyn, root, content, sealed)), root, view, sectors)
  {
    hide Recover, LoadPost, Committed, Shadow, Survives;
    var ws := SyncWrites(dyn, root, content, sealed);
    var d0 := Replay(d, dyn);
    ShadowHolds(d, dyn, 1 - root, prior);
    assert root in STATIC_SECTORS;
    RootWriteCommits(d0, root, prior, content, view, sectors);
    ReplayTail(d, dyn, Write(RootLoc(root), content), Write(root, SealList));
    assert ws == if sealed then dyn + [Write(RootLoc(root), content), Write(root, SealList)]
        else dyn + [Write(RootLoc(root), content)];
    ShadowPrefix(d, dyn, 1 - root, prior);
    forall n | 0 <= n <= |ws|
      ensures if n < CommitIndex(d, dyn, root) then Survives(Replay(d, ws[..n]), 1 - root, prior)
              else Survives(Replay(d, ws[..n]), root, Tree(view, sectors))
    {
      if n <= |dyn| {
        assert ws[..n] == dyn[..n];
      } else if n == |dyn| + 1 {
        assert ws[..n] == dyn + [Write(RootLoc(root), content)];
        if At(d, root) == SealList {
          HoldsSurvives(Replay(d, ws[..n]), root, Tree(view, sectors));
        } else {
          HoldsSurvives(Replay(d, ws[..n]), 1 - root, prior);
        }
      } else {
        assert ws[..n] == dyn + [Write(RootLoc(root), content), Write(root, SealList)];
        HoldsSurvives(Replay(d, ws[..n]), root, Tree(view, sectors));
      }
    }
  }

  lemma ReplayTail(d: Disk, dyn: seq<Write>, a: Write, b: Write)
    ensures Replay(d, dyn + [a]) == Replay(d, dyn)[a.sector := a.content]
    ensures Replay(d, dyn + [a, b]) == Replay(d, dyn)[a.sector := a.content][b.sector := b.content]
    ensures Replay(d, dyn + [a] + [b]) == Replay(d, dyn + [a, b])
  {
    assert (dyn + [a])[..|dyn|] == dyn;
    assert (dyn + [a, b])[..|dyn| + 1] == dyn + [a];
    assert dyn + [a] + [b] == dyn + [a, b];
  }
}
