/** The traversal both converters run: os.walk, top-down, over a directory
    tree held in memory, where the caller may shrink the list of child
    directories of each visited directory before the walk descends into it.
    A visit is a frame: the entry names from the traversal root down to the
    directory, and the directory itself. */
module TreeWalker {
  import opened Wrappers
  import opened Strings
  import opened PathClassifier

  /** A file as a listing gives it. `data` is what reading it in binary
      mode yields (None when the read fails); `text` is what reading it as
      text yields, after whatever decoding fallback the reader applies. */
  datatype File = File(name: string, data: Option<seq<bv8>>, text: string)

  /** A directory: its name, its subdirectories and its files, in the order
      the listing gives them. */
  datatype Dir = Dir(name: string, dirs: seq<Dir>, files: seq<File>)

  /** One directory as os.walk yields it: `rel` names it below the root. */
  datatype Frame = Frame(rel: seq<string>, dir: Dir)

  /** How the caller filters the child list in place before os.walk
      descends: `_filter_excluded_directories` of the tree pass,
      `_filter_directories_for_processing` of the content pass, the
      comprehension of the legacy converter, the hidden-name comprehension
      that ends `_filter_excluded_directories`, or no filter at all. */
  datatype Pruning = TreePruning | ContentPruning | LegacyPruning | HiddenPruning | NoPruning

  /** Whether the child at rel stays in the list. */
  predicate KeepChild(r: Rules, root: seq<string>, pr: Pruning, rel: seq<string>) {
    match pr
    case TreePruning =>
      !ShouldExclude(r, root, rel) && !(r.excludeHidden && IsHiddenPath(FullPath(root, rel)))
    case ContentPruning => !ShouldExclude(r, root, rel)
    case LegacyPruning =>
      Last(rel) != "venv" && !(r.excludeHidden && IsHiddenPath(FullPath(root, rel)))
    case HiddenPruning => !(r.excludeHidden && IsHiddenPath(FullPath(root, rel)))
    case NoPruning => true
  }

  /** Once the pattern set is non-empty, the hidden test of the tree pass
      repeats one already made by `_should_exclude`, so the tree pass and
      the content pass keep the same children. */
  lemma TreeAndContentPruningAgree(r: Rules, root: seq<string>, rel: seq<string>)
    requires r.patterns != {}
    ensures KeepChild(r, root, TreePruning, rel) <==> KeepChild(r, root, ContentPruning, rel)
  {
  }

  function DirSize(d: Dir): nat
    decreases d
  {
    1 + DirsSize(d.dirs)
  }

  function DirsSize(ds: seq<Dir>): nat
    decreases ds
  {
    if ds == [] then 0 else DirSize(ds[0]) + DirsSize(ds[1..])
  }

  function FramesSize(fs: seq<Frame>): nat {
    if fs == [] then 0 else DirSize(fs[0].dir) + FramesSize(fs[1..])
  }

  lemma {:induction false} FramesSizeAppend(a: seq<Frame>, b: seq<Frame>)
    ensures FramesSize(a + b) == FramesSize(a) + FramesSize(b)
  {
    if a == [] {
      assert a + b == b;
    } else {
      assert (a + b)[0] == a[0];
      assert (a + b)[1..] == a[1..] + b;
      FramesSizeAppend(a[1..], b);
    }
  }

  /** The child list after the in-place filter: the children that are kept,
      in their listing order. */
  function KeptDirs(r: Rules, root: seq<string>, pr: Pruning, rel: seq<string>, ds: seq<Dir>): (kept: seq<Dir>)
    ensures |kept| <= |ds| && DirsSize(kept) <= DirsSize(ds)
  {
    if ds == [] then []
    else if KeepChild(r, root, pr, rel + [ds[0].name]) then [ds[0]] + KeptDirs(r, root, pr, rel, ds[1..])
    else KeptDirs(r, root, pr, rel, ds[1..])
  }

  /** A child is kept exactly when it is listed and passes the filter. */
  lemma {:induction false} KeptDirsMembers(r: Rules, root: seq<string>, pr: Pruning, rel: seq<string>, ds: seq<Dir>, d: Dir)
    ensures d in KeptDirs(r, root, pr, rel, ds) <==> d in ds && KeepChild(r, root, pr, rel + [d.name])
  {
    if ds != [] {
      KeptDirsMembers(r, root, pr, rel, ds[1..], d);
    }
  }

  /** The content pass keeps exactly the listed children that
      `_should_exclude` lets through. */
  lemma ContentKeepsUnexcluded(r: Rules, root: seq<string>, rel: seq<string>, ds: seq<Dir>, d: Dir)
    ensures d in KeptDirs(r, root, ContentPruning, rel, ds) <==> d in ds && !ShouldExclude(r, root, rel + [d.name])
  {
  }

  /** The filter runs over the list from left to right, so filtering a
      concatenation filters each part. */
  lemma {:induction false} KeptDirsAppend(r: Rules, root: seq<string>, pr: Pruning, rel: seq<string>, a: seq<Dir>, b: seq<Dir>)
    ensures KeptDirs(r, root, pr, rel, a + b) == KeptDirs(r, root, pr, rel, a) + KeptDirs(r, root, pr, rel, b)
  {
    if a == [] {
      assert a + b == b;
    } else {
      assert (a + b)[0] == a[0];
      assert (a + b)[1..] == a[1..] + b;
      KeptDirsAppend(r, root, pr, rel, a[1..], b);
    }
  }

  /** One more child considered: it is appended when it is kept. */
  lemma KeptDirStep(r: Rules, root: seq<string>, pr: Pruning, rel: seq<string>, ds: seq<Dir>, i: nat)
    requires i < |ds|
    ensures KeptDirs(r, root, pr, rel, ds[..i + 1])
            == KeptDirs(r, root, pr, rel, ds[..i])
               + (if KeepChild(r, root, pr, rel + [ds[i].name]) then [ds[i]] else [])
  {
    KeptDirsAppend(r, root, pr, rel, ds[..i], [ds[i]]);
    assert ds[..i + 1] == ds[..i] + [ds[i]];
  }

  /** Without a filter the child list is left as it is. */
  lemma {:induction false} NoPruningKeepsAll(r: Rules, root: seq<string>, rel: seq<string>, ds: seq<Dir>)
    ensures KeptDirs(r, root, NoPruning, rel, ds) == ds
  {
    if ds != [] {
      NoPruningKeepsAll(r, root, rel, ds[1..]);
    }
  }

  /** The frames os.walk descends into for the child list ds of rel. */
  function Frames(rel: seq<string>, ds: seq<Dir>): (fs: seq<Frame>)
    ensures |fs| == |ds| && FramesSize(fs) == DirsSize(ds)
    ensures forall i :: 0 <= i < |ds| ==> fs[i] == Frame(rel + [ds[i].name], ds[i])
  {
    if ds == [] then [] else [Frame(rel + [ds[0].name], ds[0])] + Frames(rel, ds[1..])
  }

  /** The frames `os.walk(top)` yields when each visited directory's child
      list is filtered by pr before the walk descends: the directory first,
      then the walks of the kept children in order (pre-order). */
  function Visits(r: Rules, root: seq<string>, pr: Pruning, f: Frame): seq<Frame>
    decreases DirSize(f.dir), 1
  {
    [f] + VisitsOf(r, root, pr, Frames(f.rel, KeptDirs(r, root, pr, f.rel, f.dir.dirs)))
  }

  function VisitsOf(r: Rules, root: seq<string>, pr: Pruning, fs: seq<Frame>): seq<Frame>
    decreases FramesSize(fs), 2
  {
    if fs == [] then [] else Visits(r, root, pr, fs[0]) + VisitsOf(r, root, pr, fs[1..])
  }

  lemma {:induction false} VisitsOfAppend(r: Rules, root: seq<string>, pr: Pruning, a: seq<Frame>, b: seq<Frame>)
    ensures VisitsOf(r, root, pr, a + b) == VisitsOf(r, root, pr, a) + VisitsOf(r, root, pr, b)
  {
    if a == [] {
      assert a + b == b;
    } else {
      assert (a + b)[0] == a[0];
      assert (a + b)[1..] == a[1..] + b;
      VisitsOfAppend(r, root, pr, a[1..], b);
    }
  }

  lemma VisitsOfSingle(r: Rules, root: seq<string>, pr: Pruning, f: Frame)
    ensures VisitsOf(r, root, pr, [f]) == Visits(r, root, pr, f)
  {
    assert [f][1..] == [];
  }

  /** One step of os.walk: the first frame of the pending list is yielded
      and the frames of its kept children go in front of the rest. */
  lemma VisitsOfStep(r: Rules, root: seq<string>, pr: Pruning, stack: seq<Frame>)
    requires stack != []
    ensures var v := stack[0];
            VisitsOf(r, root, pr, stack)
            == [v] + VisitsOf(r, root, pr, Frames(v.rel, KeptDirs(r, root, pr, v.rel, v.dir.dirs)) + stack[1..])
  {
    var v := stack[0];
    var kids := Frames(v.rel, KeptDirs(r, root, pr, v.rel, v.dir.dirs));
    VisitsOfAppend(r, root, pr, kids, stack[1..]);
  }

  /** Moving the frame just visited from the pending walk to the done list. */
  lemma MoveVisited(done: seq<Frame>, v: Frame, tail: seq<Frame>, whole: seq<Frame>)
    requires whole == [v] + tail
    ensures (done + [v]) + tail == done + whole
  {
  }

  /** The filter of `_filter_excluded_directories` is its two passes, one
      after the other: the pattern test, then (with exclude_hidden) the
      hidden-name test on what is left. */
  lemma {:induction false} TreePruningIsTwoPasses(r: Rules, root: seq<string>, rel: seq<string>, ds: seq<Dir>)
    ensures var first := KeptDirs(r, root, ContentPruning, rel, ds);
            KeptDirs(r, root, TreePruning, rel, ds)
            == if r.excludeHidden then KeptDirs(r, root, HiddenPruning, rel, first) else first
  {
    if ds != [] {
      TreePruningIsTwoPasses(r, root, rel, ds[1..]);
    }
  }

  /** rel lies below base (or is base). */
  predicate Below(rel: seq<string>, base: seq<string>) {
    |base| <= |rel| && rel[..|base|] == base
  }

  /** Every frame a walk yields lies below the frame it started from. */
  lemma {:induction false} VisitsBelow(r: Rules, root: seq<string>, pr: Pruning, f: Frame)
    ensures forall v :: v in Visits(r, root, pr, f) ==> Below(v.rel, f.rel)
    decreases DirSize(f.dir), 1
  {
    var kids := Frames(f.rel, KeptDirs(r, root, pr, f.rel, f.dir.dirs));
    VisitsOfBelow(r, root, pr, kids, f.rel);
  }

  lemma {:induction false} VisitsOfBelow(r: Rules, root: seq<string>, pr: Pruning, fs: seq<Frame>, base: seq<string>)
    requires forall i :: 0 <= i < |fs| ==> Below(fs[i].rel, base)
    ensures forall v :: v in VisitsOf(r, root, pr, fs) ==> Below(v.rel, base)
    decreases FramesSize(fs), 2
  {
    if fs != [] {
      VisitsBelow(r, root, pr, fs[0]);
      VisitsOfBelow(r, root, pr, fs[1..], base);
      forall v | v in Visits(r, root, pr, fs[0]) ensures Below(v.rel, base) {
        assert v.rel[..|fs[0].rel|][..|base|] == v.rel[..|base|];
      }
    }
  }

  /** Every name that v adds below depth base was kept by the child filter:
      no directory on the way down to v was removed from its parent's list. */
  predicate Unpruned(r: Rules, root: seq<string>, pr: Pruning, base: nat, v: Frame) {
    forall j :: base < j <= |v.rel| ==> KeepChild(r, root, pr, v.rel[..j])
  }

  /** The frames of vs that no filter step removed, in their order. */
  function Pruned(r: Rules, root: seq<string>, pr: Pruning, base: nat, vs: seq<Frame>): (ps: seq<Frame>)
    ensures forall v :: v in ps <==> v in vs && Unpruned(r, root, pr, base, v)
  {
    if vs == [] then []
    else if Unpruned(r, root, pr, base, vs[0]) then [vs[0]] + Pruned(r, root, pr, base, vs[1..])
    else Pruned(r, root, pr, base, vs[1..])
  }

  lemma {:induction false} PrunedAppend(r: Rules, root: seq<string>, pr: Pruning, base: nat, a: seq<Frame>, b: seq<Frame>)
    ensures Pruned(r, root, pr, base, a + b) == Pruned(r, root, pr, base, a) + Pruned(r, root, pr, base, b)
  {
    if a == [] {
      assert a + b == b;
    } else {
      assert (a + b)[0] == a[0];
      assert (a + b)[1..] == a[1..] + b;
      PrunedAppend(r, root, pr, base, a[1..], b);
    }
  }

  /** Below a kept child c, the filter test at c's depth always passes,
      so pruning from c's parent is pruning from c. */
  lemma {:induction false} PrunedBelowKept(r: Rules, root: seq<string>, pr: Pruning, c: seq<string>, vs: seq<Frame>)
    requires |c| > 0 && KeepChild(r, root, pr, c)
    requires forall v :: v in vs ==> Below(v.rel, c)
    ensures Pruned(r, root, pr, |c| - 1, vs) == Pruned(r, root, pr, |c|, vs)
  {
    if vs != [] {
      var v := vs[0];
      assert v in vs;
      assert v.rel[..|c|] == c;
      assert Unpruned(r, root, pr, |c| - 1, v) <==> Unpruned(r, root, pr, |c|, v);
      assert forall w :: w in vs[1..] ==> w in vs;
      PrunedBelowKept(r, root, pr, c, vs[1..]);
    }
  }

  /** Below a removed child c, nothing survives. */
  lemma {:induction false} PrunedBelowRemoved(r: Rules, root: seq<string>, pr: Pruning, c: seq<string>, vs: seq<Frame>)
    requires |c| > 0 && !KeepChild(r, root, pr, c)
    requires forall v :: v in vs ==> Below(v.rel, c)
    ensures Pruned(r, root, pr, |c| - 1, vs) == []
  {
    if vs != [] {
      var v := vs[0];
      assert v in vs;
      assert v.rel[..|c|] == c;
      assert !Unpruned(r, root, pr, |c| - 1, v);
      assert forall w :: w in vs[1..] ==> w in vs;
      PrunedBelowRemoved(r, root, pr, c, vs[1..]);
    }
  }

  /** Filtering the child list in place before descending is the same as
      walking the whole tree and then dropping every frame that lies under
      (or is) a removed child: the pruning acts on entire subtrees. */
  lemma {:induction false} PruningIsFiltering(r: Rules, root: seq<string>, pr: Pruning, f: Frame)
    ensures Visits(r, root, pr, f) == Pruned(r, root, pr, |f.rel|, Visits(r, root, NoPruning, f))
    decreases DirSize(f.dir), 1
  {
    var all := Frames(f.rel, KeptDirs(r, root, NoPruning, f.rel, f.dir.dirs));
    NoPruningKeepsAll(r, root, f.rel, f.dir.dirs);
    PrunedChildren(r, root, pr, f.rel, f.dir.dirs);
    PrunedAppend(r, root, pr, |f.rel|, [f], VisitsOf(r, root, NoPruning, all));
    assert Unpruned(r, root, pr, |f.rel|, f);
  }

  lemma {:induction false} PrunedChildren(r: Rules, root: seq<string>, pr: Pruning, rel: seq<string>, ds: seq<Dir>)
    ensures VisitsOf(r, root, pr, Frames(rel, KeptDirs(r, root, pr, rel, ds)))
            == Pruned(r, root, pr, |rel|, VisitsOf(r, root, NoPruning, Frames(rel, ds)))
    decreases DirsSize(ds), 2
  {
    if ds != [] {
      var d := ds[0];
      var c := Frame(rel + [d.name], d);
      var full := Visits(r, root, NoPruning, c);
      assert Frames(rel, ds) == [c] + Frames(rel, ds[1..]);
      assert VisitsOf(r, root, NoPruning, Frames(rel, ds))
             == full + VisitsOf(r, root, NoPruning, Frames(rel, ds[1..]));
      PrunedAppend(r, root, pr, |rel|, full, VisitsOf(r, root, NoPruning, Frames(rel, ds[1..])));
      PrunedChildren(r, root, pr, rel, ds[1..]);
      VisitsBelow(r, root, NoPruning, c);
      assert |c.rel| - 1 == |rel|;
      if KeepChild(r, root, pr, c.rel) {
        PrunedBelowKept(r, root, pr, c.rel, full);
        PruningIsFiltering(r, root, pr, c);
        assert KeptDirs(r, root, pr, rel, ds) == [d] + KeptDirs(r, root, pr, rel, ds[1..]);
        assert Frames(rel, KeptDirs(r, root, pr, rel, ds))
               == [c] + Frames(rel, KeptDirs(r, root, pr, rel, ds[1..]));
      } else {
        PrunedBelowRemoved(r, root, pr, c.rel, full);
        assert KeptDirs(r, root, pr, rel, ds) == KeptDirs(r, root, pr, rel, ds[1..]);
      }
    }
  }

  /** What the pruned walk from the root yields, and what it leaves out:
      a frame of the whole tree is visited exactly when no directory on its
      way down from the root was removed by the child filter. */
  lemma VisitedIff(r: Rules, root: seq<string>, pr: Pruning, top: Dir, v: Frame)
    ensures v in Visits(r, root, pr, Frame([], top))
            <==> v in Visits(r, root, NoPruning, Frame([], top))
                 && forall j :: 0 < j <= |v.rel| ==> KeepChild(r, root, pr, v.rel[..j])
  {
    PruningIsFiltering(r, root, pr, Frame([], top));
  }

  /** With a non-empty pattern set the tree pass and the content pass walk
      the same directories in the same order. */
  lemma {:induction false} TreeAndContentWalksAgree(r: Rules, root: seq<string>, f: Frame)
    requires r.patterns != {}
    ensures Visits(r, root, TreePruning, f) == Visits(r, root, ContentPruning, f)
  {
    var all := Visits(r, root, NoPruning, f);
    PruningIsFiltering(r, root, TreePruning, f);
    PruningIsFiltering(r, root, ContentPruning, f);
    PrunedAgree(r, root, |f.rel|, all);
  }

  lemma {:induction false} PrunedAgree(r: Rules, root: seq<string>, base: nat, vs: seq<Frame>)
    requires r.patterns != {}
    ensures Pruned(r, root, TreePruning, base, vs) == Pruned(r, root, ContentPruning, base, vs)
  {
    if vs != [] {
      var v := vs[0];
      forall j | base < j <= |v.rel|
        ensures KeepChild(r, root, TreePruning, v.rel[..j]) <==> KeepChild(r, root, ContentPruning, v.rel[..j])
      {
        TreeAndContentPruningAgree(r, root, v.rel[..j]);
      }
      PrunedAgree(r, root, base, vs[1..]);
    }
  }
}
