/**
 * What repeated sweeps of at most a hundred adjustments achieve when some adjustments fail every
 * time: how many sweeps drain the rest, and exactly which adjustments are never reached.
 */
module Reconciliation {
  import opened Formats
  import opened Revocation
  import opened Sets
  import Signer

  type Age = Uuid -> int

  /** The adjustments whose emission goes wrong: a reason that cannot be signed, or an insert that fails. */
  function Failing(adjustments: Adjustments, down: set<Uuid>): set<Uuid> {
    set id | id in adjustments && (id in down || !Signer.ReasonCode(adjustments[id].reason))
  }

  /** One run of the reconciler takes off the list exactly what one sweep here does. */
  lemma SweepIsReconcile(adjustments: Adjustments, rows: Rows, ids: seq<Uuid>, down: set<Uuid>)
    requires forall i :: 0 <= i < |ids| ==> ids[i] in Pending(adjustments, rows)
    ensures Succeeding(adjustments, ids, down) == (set id | id in ids) - Failing(adjustments, down)
  {
  }

  /** What is pending after each of a sequence of sweeps, `fails` never going through. */
  function Swept(pending: set<Uuid>, batches: seq<set<Uuid>>, fails: set<Uuid>): set<Uuid> {
    if batches == [] then pending else Swept(pending - (batches[0] - fails), batches[1..], fails)
  }

  /** Every sweep reads the oldest hundred of what is pending when it runs. */
  ghost predicate Sweeps(created: Age, pending: set<Uuid>, batches: seq<set<Uuid>>, fails: set<Uuid>) {
    batches == [] ||
      (IsBatch(created, pending, batches[0])
       && Sweeps(created, pending - (batches[0] - fails), batches[1..], fails))
  }

  /** One sweep emits everything that can succeed, or at least a hundred less the failures it meets. */
  lemma SweepProgress(created: Age, pending: set<Uuid>, batch: set<Uuid>, fails: set<Uuid>)
    requires IsBatch(created, pending, batch)
    ensures var left := pending - (batch - fails);
      && left * fails == pending * fails
      && (left <= fails || |left - fails| + BATCH_LIMIT <= |pending - fails| + |pending * fails|)
  {
    var left := pending - (batch - fails);
    if |pending| <= BATCH_LIMIT {
      SubsetSize(batch, pending);
    } else {
      assert left - fails == (pending - fails) - batch;
      DifferenceSize(pending - fails, batch);
      DifferenceSize(batch, fails);
      assert (pending - fails) * batch == batch - fails;
      SubsetSize(batch * fails, pending * fails);
    }
  }

  lemma OneSweepLess(sweeps: nat, each: nat)
    requires sweeps > 0
    ensures sweeps * each == (sweeps - 1) * each + each
    ensures (sweeps - 1) * each >= 0
  {
  }

  /**
   * If at most `f` of the pending adjustments fail for ever, `f` being less than a hundred, then
   * enough sweeps that (100 - f) each cover all of them leave only failing ones.
   */
  lemma {:induction false} SweepsDrain(
    created: Age, pending: set<Uuid>, batches: seq<set<Uuid>>, fails: set<Uuid>, f: nat)
    requires Sweeps(created, pending, batches, fails)
    requires |pending * fails| <= f < 100
    requires |batches| * (100 - f) >= |pending - fails|
    ensures Swept(pending, batches, fails) <= fails
    decreases |batches|
  {
    if batches == [] {
      forall x | x in pending ensures x in fails {
        assert x !in pending - fails;
      }
    } else {
      OneSweepLess(|batches|, 100 - f);
      var left := pending - (batches[0] - fails);
      SweepProgress(created, pending, batches[0], fails);
      if left <= fails {
        assert left - fails == {};
      }
      SweepsDrain(created, left, batches[1..], fails, f);
    }
  }

  /** With no clock ties: the sweep's order is strict. */
  ghost predicate NoTies(created: Age, pending: set<Uuid>) {
    forall x, y :: x in pending && y in pending && created(x) == created(y) ==> x == y
  }

  ghost function OlderThan(created: Age, pending: set<Uuid>, id: Uuid): set<Uuid> {
    set y | y in pending && created(y) < created(id)
  }

  /** An adjustment is in the batch exactly when fewer than a hundred pending ones are older. */
  lemma BatchMembership(created: Age, pending: set<Uuid>, batch: set<Uuid>, id: Uuid)
    requires IsBatch(created, pending, batch) && NoTies(created, pending) && id in pending
    ensures id in batch <==> |OlderThan(created, pending, id)| < 100
    ensures id !in batch ==> batch <= OlderThan(created, pending, id)
  {
    var older := OlderThan(created, pending, id);
    if id in batch {
      forall y | y in older ensures y in batch - {id} {
        assert y in pending;
      }
      SubsetSize(older, batch - {id});
      assert |batch - {id}| == |batch| - 1;
    } else {
      forall y | y in batch ensures y in older {
        assert created(y) <= created(id);
      }
      SubsetSize(batch, older);
      SubsetSize(batch, pending);
    }
  }

  /** A hundred failing adjustments older than this one keep it out of every sweep, for ever. */
  lemma {:induction false} Starved(
    created: Age, pending: set<Uuid>, batches: seq<set<Uuid>>, fails: set<Uuid>, id: Uuid)
    requires Sweeps(created, pending, batches, fails) && NoTies(created, pending)
    requires id in pending && |OlderThan(created, pending, id) * fails| >= BATCH_LIMIT
    ensures id in Swept(pending, batches, fails)
    decreases |batches|
  {
    if batches != [] {
      var left := pending - (batches[0] - fails);
      SubsetSize(OlderThan(created, pending, id) * fails, OlderThan(created, pending, id));
      BatchMembership(created, pending, batches[0], id);
      assert OlderThan(created, left, id) * fails == OlderThan(created, pending, id) * fails;
      Starved(created, left, batches[1..], fails, id);
    }
  }

  /** With fewer than a hundred, one sweep more than there are healthy older ones is enough. */
  lemma {:induction false} Reached(
    created: Age, pending: set<Uuid>, batches: seq<set<Uuid>>, fails: set<Uuid>, id: Uuid)
    requires Sweeps(created, pending, batches, fails) && NoTies(created, pending)
    requires id !in fails && |OlderThan(created, pending, id) * fails| < BATCH_LIMIT
    requires |batches| > |OlderThan(created, pending, id) - fails|
    ensures id !in Swept(pending, batches, fails)
    decreases |batches|
  {
    var batch := batches[0];
    var left := pending - (batch - fails);
    if id !in pending || id in batch {
      Gone(left, batches[1..], fails, id);
      if id in pending {
        BatchMembership(created, pending, batch, id);
      }
    } else {
      var older := OlderThan(created, pending, id);
      BatchMembership(created, pending, batch, id);
      SubsetSize(batch, pending);
      assert OlderThan(created, left, id) * fails == older * fails;
      assert OlderThan(created, left, id) - fails == (older - fails) - batch;
      DifferenceSize(older - fails, batch);
      DifferenceSize(batch, fails);
      assert (older - fails) * batch == batch - fails;
      SubsetSize(batch * fails, older * fails);
      Reached(created, left, batches[1..], fails, id);
    }
  }

  lemma {:induction false} Gone(pending: set<Uuid>, batches: seq<set<Uuid>>, fails: set<Uuid>, id: Uuid)
    requires id !in pending
    ensures id !in Swept(pending, batches, fails)
    decreases |batches|
  {
    if batches != [] {
      Gone(pending - (batches[0] - fails), batches[1..], fails, id);
    }
  }

  /**
   * Exactly which healthy adjustments sweeping ever reaches: after as many sweeps as there were
   * pending adjustments, one is still waiting if and only if a hundred failing ones are older.
   */
  lemma StarvedExactlyWhen(created: Age, pending: set<Uuid>, batches: seq<set<Uuid>>, fails: set<Uuid>, id: Uuid)
    requires Sweeps(created, pending, batches, fails) && NoTies(created, pending)
    requires id in pending && id !in fails && |batches| >= |pending|
    ensures id in Swept(pending, batches, fails) <==> |OlderThan(created, pending, id) * fails| >= 100
  {
    if |OlderThan(created, pending, id) * fails| >= BATCH_LIMIT {
      Starved(created, pending, batches, fails, id);
    } else {
      SubsetSize(OlderThan(created, pending, id) - fails, pending - {id});
      Reached(created, pending, batches, fails, id);
    }
  }

  // ---- what is left of starving -------------------------------------------------------

  /** Adjustments are written with a reason already checked, so only an insert that fails can fail. */
  lemma CheckedReasonsFailOnlyByOutage(adjustments: Adjustments, down: set<Uuid>)
    requires forall id :: id in adjustments ==> Signer.ReasonCode(adjustments[id].reason)
    ensures Failing(adjustments, down) == down * adjustments.Keys
  {
  }

  /** The identifier whose last byte is `k`. */
  function Nth(k: nat): Uuid
    requires k < 256
  {
    seq(15, _ => 0) + [k]
  }

  function FirstIds(n: nat): set<Uuid>
    requires n <= 256
  {
    if n == 0 then {} else FirstIds(n - 1) + {Nth(n - 1)}
  }

  /** The first `n` identifiers, told by their last byte. */
  lemma {:induction false} FirstIdsAre(n: nat, id: Uuid)
    requires n <= 256
    ensures id in FirstIds(n) <==> id[15] < n && Nth(id[15]) == id
  {
    if n != 0 {
      FirstIdsAre(n - 1, id);
      assert Nth(n - 1)[15] == n - 1;
    }
  }

  lemma {:induction false} FirstIdsSize(n: nat)
    requires n <= 256
    ensures |FirstIds(n)| == n
  {
    if n != 0 {
      FirstIdsSize(n - 1);
      FirstIdsAre(n - 1, Nth(n - 1));
      assert Nth(n - 1)[15] == n - 1;
    }
  }

  function ByLastByte(): Age { (id: Uuid) => id[15] }

  lemma FirstAreApart(n: nat)
    requires n <= 256
    ensures NoTies(ByLastByte(), FirstIds(n))
  {
    hide FirstIds;
    forall x, y | x in FirstIds(n) && y in FirstIds(n) && ByLastByte()(x) == ByLastByte()(y) ensures x == y {
      FirstIdsAre(n, x);
      FirstIdsAre(n, y);
    }
  }

  lemma FirstAreOlder(n: nat)
    requires n < 256
    ensures Nth(n) !in FirstIds(n) && Nth(n) in FirstIds(n + 1)
    ensures OlderThan(ByLastByte(), FirstIds(n + 1), Nth(n)) == FirstIds(n)
  {
    hide FirstIds;
    assert Nth(n)[15] == n;
    FirstIdsAre(n, Nth(n));
    FirstIdsAre(n + 1, Nth(n));
    forall x: Uuid ensures x in OlderThan(ByLastByte(), FirstIds(n + 1), Nth(n)) <==> x in FirstIds(n) {
      FirstIdsAre(n, x);
      FirstIdsAre(n + 1, x);
    }
  }

  /**
   * A hundred adjustments whose inserts fail for ever, and one younger that would succeed: however
   * many sweeps run, it is never emitted.
   */
  lemma HundredFailuresStarve(batches: seq<set<Uuid>>)
    requires Sweeps(ByLastByte(), FirstIds(101), batches, FirstIds(100))
    ensures Nth(100) !in FirstIds(100) && Nth(100) in Swept(FirstIds(101), batches, FirstIds(100))
  {
    hide FirstIds, Nth, ByLastByte, OlderThan, NoTies, Sweeps, Swept;
    FirstAreApart(101);
    FirstAreOlder(100);
    FirstIdsSize(100);
    assert FirstIds(100) * FirstIds(100) == FirstIds(100);
    Starved(ByLastByte(), FirstIds(101), batches, FirstIds(100), Nth(100));
  }
}
