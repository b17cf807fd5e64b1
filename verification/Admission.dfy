/**
 * Registration admission run alone: the challenge, counter and volunteer tables, and one
 * registration transaction over them. Rolling back is returning to the tables it started from.
 */
module Admission {
  import opened Digits
  import opened Pow
  import opened Results

  const DAY := 86_400_000_000
  const COUNTER_RETENTION_DAYS := 7

  /** Microseconds since the epoch; days are UTC days. */
  type Time = nat

  function DayOf(t: Time): nat { t / DAY }

  type Key = seq<Byte>
  type Sha = seq<Byte> -> seq<Byte>

  datatype Challenge = Challenge(publicKey: Key, bytes: seq<Byte>, difficulty: int, expiresAt: Time)

  datatype Redemption = Redemption(challengeId: nat, publicKey: Key, nonce: nat)

  /** `capPerDay <= 0` leaves the cap unenforced, no `pow` leaves the proof of work unenforced. */
  datatype Gate = Gate(bucket: string, capPerDay: int, pow: Option<Redemption>)

  datatype Slot = Slot(bucket: string, day: nat)

  datatype Tables = Tables(challenges: map<nat, Challenge>, counters: map<Slot, nat>, volunteers: set<Key>)

  datatype Refusal = ChallengeInvalid | SolutionInvalid | CapExceeded | DuplicateKey

  function Counter(db: Tables, slot: Slot): nat { if slot in db.counters then db.counters[slot] else 0 }

  /** The row the redeeming DELETE names: right id, right key, not expired at the transaction's start. */
  predicate Redeemable(db: Tables, at: Time, red: Redemption) {
    && red.challengeId in db.challenges
    && db.challenges[red.challengeId].publicKey == red.publicKey
    && db.challenges[red.challengeId].expiresAt > at
  }

  predicate Solves(sha: Sha, c: Challenge, red: Redemption) {
    VerifySolution(sha, c.bytes, red.publicKey, red.nonce, c.difficulty)
  }

  function Redeem(sha: Sha, db: Tables, at: Time, red: Redemption): Result<Tables, Refusal> {
    if !Redeemable(db, at, red) then Err(ChallengeInvalid)
    else if !Solves(sha, db.challenges[red.challengeId], red) then Err(SolutionInvalid)
    else Ok(db.(challenges := db.challenges - {red.challengeId}))
  }

  function Reserve(db: Tables, at: Time, bucket: string, cap: int): Result<Tables, Refusal> {
    var slot := Slot(bucket, DayOf(at));
    var count := Counter(db, slot) + 1;
    if count > cap then Err(CapExceeded) else Ok(db.(counters := db.counters[slot := count]))
  }

  function Insert(db: Tables, key: Key): Result<Tables, Refusal> {
    if key in db.volunteers then Err(DuplicateKey) else Ok(db.(volunteers := db.volunteers + {key}))
  }

  /** The whole gated registration as one atomic action on the tables. */
  function CreateAdmitted(sha: Sha, db: Tables, at: Time, gate: Gate, key: Key): Result<Tables, Refusal> {
    var redeemed := if gate.pow.Some? then Redeem(sha, db, at, gate.pow.value) else Ok(db);
    if redeemed.Err? then redeemed
    else
      var reserved :=
        if gate.capPerDay > 0 then Reserve(redeemed.value, at, gate.bucket, gate.capPerDay) else redeemed;
      if reserved.Err? then reserved else Insert(reserved.value, key)
  }

  // ---- what each answer means ---------------------------------------------------------

  /** The work a redemption claims: enough leading zero bits in the digest of challenge, key and eight-byte nonce. */
  predicate Worked(sha: Sha, bytes: seq<Byte>, red: Redemption, difficulty: int) {
    ZeroBits(sha(bytes + red.publicKey + NonceBytes(red.nonce, 8))) >= difficulty
  }

  /**
   * A redemption succeeds exactly for a challenge that is there, was issued to the same key, has not
   * expired when the transaction starts, and is solved at its own difficulty; it uses up that row alone.
   */
  lemma RedeemedExactlyWhen(sha: Sha, db: Tables, at: Time, red: Redemption)
    ensures var id := red.challengeId;
      var there :=
        id in db.challenges && db.challenges[id].publicKey == red.publicKey && at < db.challenges[id].expiresAt;
      var solved := there && Worked(sha, db.challenges[id].bytes, red, db.challenges[id].difficulty);
      var r := Redeem(sha, db, at, red);
      && (r == Err(ChallengeInvalid) <==> !there) && (r == Err(SolutionInvalid) <==> there && !solved)
      && (r.Ok? <==> solved)
      && (r.Ok? ==>
            && r.value.counters == db.counters && r.value.volunteers == db.volunteers
            && forall x :: x in r.value.challenges <==> x in db.challenges && x != id)
  {
  }

  /**
   * The whole registration: which refusal comes first, and the tables it leaves. Work comes before the
   * cap and the cap before the key, and the day is that of the transaction's start.
   */
  lemma AdmittedExactlyWhen(sha: Sha, db: Tables, at: Time, gate: Gate, key: Key)
    ensures var slot := Slot(gate.bucket, at / 86_400_000_000);
      var count := if slot in db.counters then db.counters[slot] else 0;
      var redeemed := if gate.pow.Some? then Redeem(sha, db, at, gate.pow.value) else Ok(db);
      var full := gate.capPerDay > 0 && count >= gate.capPerDay;
      var r := CreateAdmitted(sha, db, at, gate, key);
      && (redeemed.Err? ==> r == redeemed)
      && (r == Err(CapExceeded) <==> redeemed.Ok? && full)
      && (r == Err(DuplicateKey) <==> redeemed.Ok? && !full && key in db.volunteers)
      && (r.Ok? <==> redeemed.Ok? && !full && key !in db.volunteers)
      && (r.Ok? ==>
            && r.value.challenges == redeemed.value.challenges && r.value.volunteers == db.volunteers + {key}
            && r.value.counters == if gate.capPerDay > 0 then db.counters[slot := count + 1] else db.counters)
  {
  }

  // ---- the tables in place ------------------------------------------------------------

  class Registry {
    var challenges: map<nat, Challenge>
    var counters: map<Slot, nat>
    var volunteers: set<Key>

    function Contents(): Tables
      reads this
    {
      Tables(challenges, counters, volunteers)
    }

    /** Stores a challenge under an identifier never used before. */
    method IssueChallenge(id: nat, publicKey: Key, bytes: seq<Byte>, difficulty: int, expiresAt: Time)
      returns (c: Challenge)
      modifies this`challenges
      ensures c == Challenge(publicKey, bytes, difficulty, expiresAt)
      ensures Contents() == old(Contents()).(challenges := old(challenges)[id := c])
    {
      c := Challenge(publicKey, bytes, difficulty, expiresAt);
      challenges := challenges[id := c];
    }

    /** Deletes the row first and verifies after; a failed check leaves the deletion to the rollback. */
    method RedeemChallenge(sha: Sha, now: Time, red: Redemption) returns (refusal: Option<Refusal>)
      modifies this`challenges
      ensures match Redeem(sha, old(Contents()), now, red)
              case Ok(after) => refusal == None && Contents() == after
              case Err(e) => refusal == Some(e)
      ensures refusal == Some(ChallengeInvalid) ==> challenges == old(challenges)
      ensures refusal == Some(SolutionInvalid) ==> challenges == old(challenges) - {red.challengeId}
    {
      if red.challengeId !in challenges {
        return Some(ChallengeInvalid);
      }
      var c := challenges[red.challengeId];
      if c.publicKey != red.publicKey || c.expiresAt <= now {
        return Some(ChallengeInvalid);
      }
      challenges := challenges - {red.challengeId};
      if !VerifySolution(sha, c.bytes, red.publicKey, red.nonce, c.difficulty) {
        return Some(SolutionInvalid);
      }
      refusal := None;
    }

    /** Increments first and compares after; a refusal leaves the increment to the rollback. */
    method ReserveCreationSlot(now: Time, bucket: string, capPerDay: int) returns (refusal: Option<Refusal>)
      modifies this`counters
      ensures match Reserve(old(Contents()), now, bucket, capPerDay)
              case Ok(after) => refusal == None && Contents() == after
              case Err(e) => refusal == Some(e)
      ensures var slot := Slot(bucket, DayOf(now));
              counters == old(counters)[slot := old(Counter(Contents(), slot)) + 1]
    {
      var slot := Slot(bucket, DayOf(now));
      var count := 1;
      if slot in counters {
        count := counters[slot] + 1;
      }
      counters := counters[slot := count];
      refusal := if count > capPerDay then Some(CapExceeded) else None;
    }

    /** One registration with nothing else running: on any refusal every table is as it was. */
    method Admit(sha: Sha, now: Time, gate: Gate, key: Key) returns (refusal: Option<Refusal>)
      modifies this
      ensures match CreateAdmitted(sha, old(Contents()), now, gate, key)
              case Ok(after) => refusal == None && Contents() == after
              case Err(e) => refusal == Some(e) && Contents() == old(Contents())
    {
      var savedChallenges, savedCounters := challenges, counters;
      if gate.pow.Some? {
        refusal := RedeemChallenge(sha, now, gate.pow.value);
        if refusal.Some? {
          challenges := savedChallenges;
          return;
        }
      }
      if gate.capPerDay > 0 {
        refusal := ReserveCreationSlot(now, gate.bucket, gate.capPerDay);
        if refusal.Some? {
          challenges, counters := savedChallenges, savedCounters;
          return;
        }
      }
      if key in volunteers {
        challenges, counters := savedChallenges, savedCounters;
        return Some(DuplicateKey);
      }
      volunteers := volunteers + {key};
      refusal := None;
    }

    method SweepCounters(now: Time)
      modifies this`counters
      ensures forall slot :: slot in counters <==>
        slot in old(counters) && slot.day + 7 >= now / 86_400_000_000
      ensures forall slot :: slot in counters ==> counters[slot] == old(counters)[slot]
    {
      counters := map slot | slot in counters && slot.day + COUNTER_RETENTION_DAYS >= DayOf(now) :: counters[slot];
    }

    method SweepChallenges(now: Time)
      modifies this`challenges
      ensures forall id :: id in challenges <==> id in old(challenges) && old(challenges)[id].expiresAt >= now
      ensures forall id :: id in challenges ==> challenges[id] == old(challenges)[id]
    {
      challenges := map id | id in challenges && challenges[id].expiresAt >= now :: challenges[id];
    }
  }
}
