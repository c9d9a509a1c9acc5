/**
  What a reader finds on a data region that stopped at some block write: nothing it can open, or
  the whole file as it was after some prefix of the edits; never a mix.
 */
module Crash {
  import opened Layout
  import opened Merkle
  import opened FlatFile
  import opened FlushState

  /** The image opens as the whole file after the first `j` edits. */
  ghost predicate Shows(img: Disk, key: Key, hist: seq<Edit>, j: nat) {
    j <= |hist| && Reopen(img, key) == Snapshot(Replay(hist[..j]))
  }

  /** The image opens under no key but `key`. */
  ghost predicate OnlyOpens(img: Disk, key: Key) {
    forall other: Key :: OpenFile(img, other).Opened? ==> other == key
  }

  /**
    `open_file` turns the image down, or it opens as the whole file after a prefix of the history;
    under any other key it is turned down.
   */
  ghost predicate GoodImage(img: Disk, key: Key, hist: seq<Edit>) {
    OnlyOpens(img, key) && (!OpenFile(img, key).Opened? || exists j: nat :: Shows(img, key, hist, j))
  }

  /** An image that is refused or opens under `key` opens under no other key. */
  lemma KeyedImage(img: Disk, key: Key)
    requires Reopen(img, key) == NoSnapshot(true) || Reopen(img, key).Snapshot?
    ensures OnlyOpens(img, key)
  {
  }

  /** What one image shows, a later one shows too, and perhaps more; or its update flag is set. */
  ghost predicate Keeps(img: Disk, later: Disk, key: Key, hist: seq<Edit>) {
    Reopen(img, key).Snapshot? ==>
      || Reopen(later, key) == NoSnapshot(true)
      || exists i: nat, j: nat :: i <= j && Shows(img, key, hist, i) && Shows(later, key, hist, j)
  }

  /** Every image since the file was created, the first being whatever was there before. */
  ghost predicate GoodTrail(trail: seq<Disk>, key: Key, hist: seq<Edit>) {
    && (forall i :: 0 < i < |trail| ==> GoodImage(trail[i], key, hist))
    && (forall i, k :: 0 < i <= k < |trail| ==> Keeps(trail[i], trail[k], key, hist))
  }

  /** An image taken during a flush: refused, the file before it if there was one, or the file after it. */
  ghost predicate TornImage(img: Disk, before: Disk, key: Key, hist: seq<Edit>, flushed: bool) {
    || Reopen(img, key) == NoSnapshot(true)
    || Reopen(img, key) == Snapshot(Replay(hist))
    || (if flushed then Reopen(img, key) == Reopen(before, key) else !OpenFile(img, key).Opened?)
  }

  /** A refused image is not opened; an image that is not opened shows nothing. */
  lemma RefusedNotOpened(img: Disk, key: Key)
    ensures Reopen(img, key) == NoSnapshot(true) ==> !OpenFile(img, key).Opened?
    ensures !OpenFile(img, key).Opened? ==> Reopen(img, key).NoSnapshot?
  {
  }

  ghost predicate TornTrail(prior: seq<Disk>, trail: seq<Disk>, before: Disk, key: Key, hist: seq<Edit>, flushed: bool) {
    && prior <= trail
    && (forall j :: |prior| <= j < |trail| ==> TornImage(trail[j], before, key, hist, flushed))
  }

  lemma TornTrailTrans(a: seq<Disk>, b: seq<Disk>, c: seq<Disk>, before: Disk, key: Key, hist: seq<Edit>, flushed: bool)
    requires TornTrail(a, b, before, key, hist, flushed) && TornTrail(b, c, before, key, hist, flushed)
    ensures TornTrail(a, c, before, key, hist, flushed)
  {
    hide TornImage;
  }

  lemma ShowsMore(img: Disk, key: Key, hist: seq<Edit>, more: seq<Edit>, j: nat)
    requires Shows(img, key, hist, j)
    ensures Shows(img, key, hist + more, j)
  {
    assert (hist + more)[..j] == hist[..j];
  }

  lemma ShowsAll(img: Disk, key: Key, hist: seq<Edit>)
    ensures Shows(img, key, hist, |hist|) <==> Reopen(img, key) == Snapshot(Replay(hist))
  {
    assert hist[..|hist|] == hist;
  }

  lemma GoodTrailGrows(trail: seq<Disk>, key: Key, hist: seq<Edit>, more: seq<Edit>)
    requires GoodTrail(trail, key, hist)
    ensures GoodTrail(trail, key, hist + more)
  {
    hide Shows;
    hide Reopen;
    hide OpenFile;
    forall i | 0 < i < |trail| ensures GoodImage(trail[i], key, hist + more) {
      if OpenFile(trail[i], key).Opened? {
        var j: nat :| Shows(trail[i], key, hist, j);
        ShowsMore(trail[i], key, hist, more, j);
      }
    }
    forall i, k | 0 < i <= k < |trail| ensures Keeps(trail[i], trail[k], key, hist + more) {
      KeepsMore(trail[i], trail[k], key, hist, more);
    }
  }

  lemma KeepsMore(img: Disk, later: Disk, key: Key, hist: seq<Edit>, more: seq<Edit>)
    requires Keeps(img, later, key, hist)
    ensures Keeps(img, later, key, hist + more)
  {
    hide Shows;
    hide Reopen;
    if Reopen(img, key).Snapshot? && Reopen(later, key) != NoSnapshot(true) {
      var i: nat, j: nat :| i <= j && Shows(img, key, hist, i) && Shows(later, key, hist, j);
      ShowsMore(img, key, hist, more, i);
      ShowsMore(later, key, hist, more, j);
    }
  }

  /** An image that is refused, or that shows the whole history, keeps whatever a good image showed. */
  lemma KeepsGood(img: Disk, later: Disk, key: Key, hist: seq<Edit>)
    requires GoodImage(img, key, hist)
    requires Reopen(later, key) == NoSnapshot(true) || Reopen(later, key) == Snapshot(Replay(hist))
    ensures GoodImage(later, key, hist) && Keeps(img, later, key, hist)
  {
    hide Shows;
    hide Reopen;
    hide OpenFile;
    hide Replay;
    RefusedNotOpened(img, key);
    RefusedNotOpened(later, key);
    KeyedImage(later, key);
    ShowsAll(later, key, hist);
    if Reopen(img, key).Snapshot? {
      var i: nat :| Shows(img, key, hist, i);
      ShowsWithin(img, key, hist, i);
    }
  }

  lemma ShowsWithin(img: Disk, key: Key, hist: seq<Edit>, j: nat)
    requires Shows(img, key, hist, j)
    ensures j <= |hist|
  {
  }

  lemma FlaggedRefused(img: Disk, key: Key)
    requires META_DATA_PHY_NUM in img && img[META_DATA_PHY_NUM].MetaBlock? && img[META_DATA_PHY_NUM].updateFlag
    ensures Reopen(img, key) == NoSnapshot(true)
  {
  }

  lemma UnsealedDamaged(img: Disk, key: Key)
    requires META_DATA_PHY_NUM in img && img[META_DATA_PHY_NUM] == MetaBlock(false, Unsealed)
    ensures Reopen(img, key) == NoSnapshot(false) && !OpenFile(img, key).Opened? && OnlyOpens(img, key)
  {
  }

  /** Setting or clearing the update flag never exposes anything but the region with its flag cleared. */
  lemma FlagTrailTorn(prior: seq<Disk>, trail: seq<Disk>, base: Disk, key: Key, seal: MetaSeal, hist: seq<Edit>, flushed: bool)
    requires FlagTrail(prior, trail, base, seal) && (!flushed ==> seal == Unsealed)
    ensures TornTrail(prior, trail, Flagged(base, false, seal), key, hist, flushed)
  {
    forall j | |prior| <= j < |trail| ensures TornImage(trail[j], Flagged(base, false, seal), key, hist, flushed) {
      if trail[j] == Flagged(base, true, seal) {
        FlaggedRefused(trail[j], key);
      } else if !flushed {
        UnsealedDamaged(trail[j], key);
      }
    }
  }

  /** The images of a write-out: refused until the last block, then the new file. */
  ghost predicate EndTrail(prior: seq<Disk>, trail: seq<Disk>, key: Key, hist: seq<Edit>) {
    && prior <= trail
    && (forall j :: |prior| <= j < |trail| ==>
          Reopen(trail[j], key) == NoSnapshot(true) || (j == |trail| - 1 && Reopen(trail[j], key) == Snapshot(Replay(hist))))
  }

  lemma EndTrailTorn(prior: seq<Disk>, trail: seq<Disk>, base: Disk, key: Key, hist: seq<Edit>, flushed: bool)
    requires EndTrail(prior, trail, key, hist)
    ensures TornTrail(prior, trail, base, key, hist, flushed)
  {
    hide Reopen;
    hide Replay;
  }

  /** A trail stays good when every new image is good and keeps what the images up to it showed. */
  lemma GoodTrailExtends(prior: seq<Disk>, trail: seq<Disk>, key: Key, hist: seq<Edit>)
    requires GoodTrail(prior, key, hist) && prior <= trail
    requires forall k :: |prior| <= k < |trail| && k > 0 ==> GoodImage(trail[k], key, hist)
    requires forall i, k :: 0 < i <= k < |trail| && |prior| <= k ==> Keeps(trail[i], trail[k], key, hist)
    ensures GoodTrail(trail, key, hist)
  {
    hide GoodImage;
    hide Keeps;
    assert forall i :: 0 <= i < |prior| ==> trail[i] == prior[i];
  }

  lemma EndTrailGood(prior: seq<Disk>, trail: seq<Disk>, key: Key, hist: seq<Edit>)
    requires prior != [] && GoodTrail(prior, key, hist) && EndTrail(prior, trail, key, hist)
    ensures GoodTrail(trail, key, hist)
  {
    hide Reopen;
    hide Replay;
    hide GoodImage;
    hide Keeps;
    forall k | 0 < k < |trail| ensures GoodImage(trail[k], key, hist) {
      if k < |prior| {
        assert trail[k] == prior[k];
      } else {
        EndImageGood(trail[k], key, hist);
      }
    }
    forall i, k | 0 < i <= k < |trail| && |prior| <= k ensures Keeps(trail[i], trail[k], key, hist) {
      KeepsGood(trail[i], trail[k], key, hist);
    }
    GoodTrailExtends(prior, trail, key, hist);
  }

  lemma EndImageGood(img: Disk, key: Key, hist: seq<Edit>)
    requires Reopen(img, key) == NoSnapshot(true) || Reopen(img, key) == Snapshot(Replay(hist))
    ensures GoodImage(img, key, hist)
  {
    hide Reopen;
    hide Replay;
    hide OpenFile;
    hide Shows;
    RefusedNotOpened(img, key);
    KeyedImage(img, key);
    ShowsAll(img, key, hist);
  }

  lemma GoodTrailPrefix(trail: seq<Disk>, img: Disk, key: Key, hist: seq<Edit>)
    requires GoodTrail(trail + [img], key, hist)
    ensures GoodTrail(trail, key, hist)
  {
    hide GoodImage;
    hide Keeps;
    assert forall i :: 0 <= i < |trail| ==> (trail + [img])[i] == trail[i];
  }

  /** The whole file, put behind a good trail. */
  lemma GoodTrailWhole(trail: seq<Disk>, img: Disk, key: Key, hist: seq<Edit>)
    requires trail != [] && GoodTrail(trail, key, hist) && Reopen(img, key) == Snapshot(Replay(hist))
    ensures GoodTrail(trail + [img], key, hist)
  {
    hide Reopen;
    hide Replay;
    hide GoodTrail;
    EndTrailGood(trail, trail + [img], key, hist);
  }

  /** Setting and clearing the flag leaves the trail good, if the region with its flag cleared is good. */
  lemma FlagsGood(prior: seq<Disk>, trail: seq<Disk>, base: Disk, key: Key, seal: MetaSeal, hist: seq<Edit>)
    requires prior != [] && GoodTrail(prior + [Flagged(base, false, seal)], key, hist) && FlagTrail(prior, trail, base, seal)
    ensures GoodTrail(trail + [Flagged(base, false, seal)], key, hist)
  {
    hide Reopen;
    hide OpenFile;
    hide Shows;
    var b := Flagged(base, false, seal);
    var full := trail + [b];
    forall k | |prior| <= k < |full| ensures full[k] == b || Reopen(full[k], key) == NoSnapshot(true) {
      if full[k] != b {
        FlaggedRefused(full[k], key);
      }
    }
    assert (prior + [b])[|prior|] == b;
    GoodTrailPrefix(prior, b, key, hist);
    forall k | |prior| <= k < |full| ensures GoodImage(full[k], key, hist) {
      RefusedNotOpened(full[k], key);
      if full[k] != b {
        KeyedImage(full[k], key);
      }
    }
    forall i, k | 0 < i <= k < |full| && |prior| <= k ensures Keeps(full[i], full[k], key, hist) {
      if i < |prior| {
        assert full[i] == prior[i] == (prior + [b])[i];
      }
    }
    GoodTrailExtends(prior, full, key, hist);
  }

  lemma TornTrailSelf(trail: seq<Disk>, base: Disk, key: Key, hist: seq<Edit>, flushed: bool)
    ensures TornTrail(trail, trail, base, key, hist, flushed)
  {
  }

  lemma EndTrailFrom(prior: seq<Disk>, mid: seq<Disk>, trail: seq<Disk>, base: Disk, blocks: Disk, key: Key, seal: MetaSeal, hist: seq<Edit>)
    requires OneFlag(prior, mid, base, blocks, seal) && EndTrail(mid, trail, key, hist)
    ensures EndTrail(prior, trail, key, hist)
  {
    hide Reopen;
    hide Replay;
    if blocks == Flagged(base, true, seal) {
      FlaggedRefused(blocks, key);
    }
  }

  /** The images of a write-out that was taken up again: refused, or the new file. */
  ghost predicate RetryTrail(prior: seq<Disk>, trail: seq<Disk>, key: Key, hist: seq<Edit>) {
    && prior <= trail
    && (forall j :: |prior| <= j < |trail| ==>
          Reopen(trail[j], key) == NoSnapshot(true) || Reopen(trail[j], key) == Snapshot(Replay(hist)))
  }

  lemma RetryTrailExtends(prior: seq<Disk>, mid: seq<Disk>, trail: seq<Disk>, key: Key, hist: seq<Edit>)
    requires RetryTrail(prior, mid, key, hist) && EndTrail(mid, trail, key, hist)
    ensures RetryTrail(prior, trail, key, hist)
  {
    hide Reopen;
    hide Replay;
  }
}
