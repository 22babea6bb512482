/** The update journal of firmware/main/ota_journal.c: its transitions as values, and in place. */
module OtaJournal {

  /** A SHA-256 digest, compared for equality only. */
  type Hash = nat

  const FAILED_HASHES := 4

  datatype Record = Record(
    floor: nat, pendingRelease: nat, pendingAddress: nat, pendingHash: Hash,
    failed: seq<Hash>, failedCount: nat, failedNext: nat)
  {
    /** What the code keeps true of a journal it wrote: an unfilled ring is filled from the front. */
    predicate Ok() {
      && |failed| == FAILED_HASHES && failedCount <= FAILED_HASHES && failedNext < FAILED_HASHES
      && (failedCount < FAILED_HASHES ==> failedNext == failedCount)
    }

    /** The rejected hashes, oldest first. */
    function Ring(): seq<Hash>
      requires Ok()
    {
      if failedCount < FAILED_HASHES then failed[..failedCount] else failed[failedNext..] + failed[..failedNext]
    }
  }

  const EMPTY := Record(0, 0, 0, 0, [0, 0, 0, 0], 0, 0)

  predicate Rejected(j: Record, hash: Hash)
    requires j.Ok()
  {
    hash in j.failed[..j.failedCount]
  }

  function Cleared(j: Record): Record { j.(pendingRelease := 0, pendingAddress := 0, pendingHash := 0) }

  function Prepared(j: Record, release: nat, address: nat, hash: Hash): Record {
    j.(pendingRelease := release, pendingAddress := address, pendingHash := hash)
  }

  function WithRejected(j: Record, hash: Hash): (r: Record)
    requires j.Ok()
    ensures r.Ok() && r.floor == j.floor
  {
    Cleared(
      if Rejected(j, hash) then j
      else j.(failed := j.failed[j.failedNext := hash],
              failedNext := (j.failedNext + 1) % FAILED_HASHES,
              failedCount := if j.failedCount < FAILED_HASHES then j.failedCount + 1 else j.failedCount))
  }

  function Confirmed(j: Record, release: nat): Record {
    Cleared(if release > j.floor then j.(floor := release) else j)
  }

  lemma RejectedMeans(j: Record, hash: Hash)
    requires j.Ok()
    ensures Rejected(j, hash) <==> hash in j.Ring()
  {
    if j.failedCount == FAILED_HASHES {
      assert j.failed == j.failed[..j.failedNext] + j.failed[j.failedNext..];
      assert j.failed[..4] == j.failed;
    }
  }

  lemma RingFills(j: Record, hash: Hash)
    requires j.Ok() && j.failedCount < FAILED_HASHES && !Rejected(j, hash)
    ensures WithRejected(j, hash).Ring() == j.Ring() + [hash]
  {
    var n, r := j.failedCount, WithRejected(j, hash);
    assert r.failed[..n + 1] == j.failed[..n] + [hash];
    if n == FAILED_HASHES - 1 {
      assert r.Ring() == r.failed[0..] + r.failed[..0] == r.failed[..n + 1];
    }
  }

  lemma RingTurns(j: Record, hash: Hash)
    requires j.Ok() && j.failedCount == FAILED_HASHES && !Rejected(j, hash)
    ensures |j.Ring()| == FAILED_HASHES && WithRejected(j, hash).Ring() == j.Ring()[1..] + [hash]
  {
    var n, r := j.failedNext, WithRejected(j, hash);
    assert r.failed == j.failed[n := hash] && r.failedNext == (n + 1) % FAILED_HASHES;
    Turned(j.failed, n, hash);
  }

  lemma Turned(f: seq<Hash>, n: nat, hash: Hash)
    requires |f| == FAILED_HASHES && n < FAILED_HASHES
    ensures var g, m := f[n := hash], (n + 1) % FAILED_HASHES;
      g[m..] + g[..m] == (f[n..] + f[..n])[1..] + [hash]
  {
    var g, m := f[n := hash], (n + 1) % FAILED_HASHES;
    assert (f[n..] + f[..n])[1..] == f[n + 1..] + f[..n];
    assert g[n + 1..] == f[n + 1..] && g[..n + 1] == f[..n] + [hash];
  }

  /** The ring is the last four different rejected hashes: rejecting appends and drops the oldest of four. */
  lemma RejectAppends(j: Record, hash: Hash)
    requires j.Ok()
    ensures var ring := j.Ring();
      WithRejected(j, hash).Ring()
        == if hash in ring then ring else (if |ring| == FAILED_HASHES then ring[1..] else ring) + [hash]
    ensures hash in WithRejected(j, hash).Ring()
  {
    RejectedMeans(j, hash);
    if !Rejected(j, hash) {
      hide WithRejected;
      if j.failedCount < FAILED_HASHES {
        RingFills(j, hash);
      } else {
        RingTurns(j, hash);
      }
    }
  }

  /** No hash is in the ring twice. */
  lemma RejectKeepsDistinct(j: Record, hash: Hash)
    requires j.Ok() && forall a, b :: 0 <= a < b < |j.Ring()| ==> j.Ring()[a] != j.Ring()[b]
    ensures var ring := WithRejected(j, hash).Ring(); forall a, b :: 0 <= a < b < |ring| ==> ring[a] != ring[b]
  {
    RejectAppends(j, hash);
  }

  /** rw_ota_journal_t, changed in place. */
  class Journal {
    var floor: nat
    var pendingRelease: nat
    var pendingAddress: nat
    var pendingHash: Hash
    const failed: array<Hash>
    var failedCount: nat
    var failedNext: nat

    ghost function View(): Record
      reads this, failed
    {
      Record(floor, pendingRelease, pendingAddress, pendingHash, failed[..], failedCount, failedNext)
    }

    constructor ()
      ensures View() == EMPTY && fresh(failed)
    {
      floor, pendingRelease, pendingAddress, pendingHash := 0, 0, 0, 0;
      failed := new Hash[FAILED_HASHES](_ => 0);
      failedCount, failedNext := 0, 0;
    }

    /** rw_ota_journal_rejected */
    method IsRejected(hash: Hash) returns (found: bool)
      requires View().Ok()
      ensures found <==> hash in View().Ring()
    {
      RejectedMeans(View(), hash);
      for i := 0 to failedCount
        invariant hash !in failed[..i]
      {
        if failed[i] == hash {
          assert failed[..failedCount][i] == hash;
          return true;
        }
        assert failed[..i + 1] == failed[..i] + [failed[i]];
      }
      return false;
    }

    method ClearPending()
      modifies this`pendingRelease, this`pendingAddress, this`pendingHash
      ensures View() == Cleared(old(View()))
    {
      pendingRelease, pendingAddress, pendingHash := 0, 0, 0;
    }

    method Prepare(release: nat, address: nat, hash: Hash)
      modifies this`pendingRelease, this`pendingAddress, this`pendingHash
      ensures View() == Prepared(old(View()), release, address, hash)
    {
      pendingRelease, pendingAddress, pendingHash := release, address, hash;
    }

    method Reject(hash: Hash)
      requires View().Ok()
      modifies this, failed
      ensures View() == WithRejected(old(View()), hash)
    {
      RejectedMeans(View(), hash);
      var known := IsRejected(hash);
      if !known {
        failed[failedNext] := hash;
        failedNext := (failedNext + 1) % FAILED_HASHES;
        if failedCount < FAILED_HASHES {
          failedCount := failedCount + 1;
        }
      }
      ClearPending();
    }

    method Confirm(release: nat)
      modifies this
      ensures View() == Confirmed(old(View()), release)
    {
      if release > floor {
        floor := release;
      }
      ClearPending();
    }
  }
}
