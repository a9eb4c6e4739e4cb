/** Validator set, votes and BFT finality. */
module Consensus {
  import opened Bytes
  import opened Transactions
  import opened Blocks

  datatype ValidatorInfo = ValidatorInfo(
    address: ByteString, stake: u64, active: bool, blocksProposed: u64, blocksVoted: u64)

  // ---- The validator set, kept by descending stake ----

  type Validators = seq<ValidatorInfo>

  ghost predicate ByStake(vs: Validators) {
    forall i, j :: 0 <= i < j < |vs| ==> vs[i].stake >= vs[j].stake
  }

  /** `add_validator`: push, then stable sort, which on a sorted list moves the newcomer
      behind everyone with at least its stake. */
  function AddValidator(vs: Validators, v: ValidatorInfo): Validators {
    if vs == [] || vs[|vs| - 1].stake >= v.stake then vs + [v]
    else AddValidator(vs[..|vs| - 1], v) + [vs[|vs| - 1]]
  }

  lemma {:induction false} AddValidatorMembers(vs: Validators, v: ValidatorInfo)
    ensures multiset(AddValidator(vs, v)) == multiset(vs) + multiset{v}
  {
    if vs != [] {
      assert vs == vs[..|vs| - 1] + [vs[|vs| - 1]];
      if vs[|vs| - 1].stake < v.stake {
        AddValidatorMembers(vs[..|vs| - 1], v);
      }
    }
  }

  lemma {:induction false} AddValidatorAbove(vs: Validators, v: ValidatorInfo, floor: u64)
    requires v.stake >= floor && forall i :: 0 <= i < |vs| ==> vs[i].stake >= floor
    ensures forall i :: 0 <= i < |AddValidator(vs, v)| ==> AddValidator(vs, v)[i].stake >= floor
  {
    if vs != [] && vs[|vs| - 1].stake < v.stake {
      AddValidatorAbove(vs[..|vs| - 1], v, floor);
    }
  }

  /** Adding keeps the set ordered by descending stake. */
  lemma {:induction false} AddValidatorSorted(vs: Validators, v: ValidatorInfo)
    requires ByStake(vs)
    ensures ByStake(AddValidator(vs, v))
  {
    if vs != [] && vs[|vs| - 1].stake < v.stake {
      AddValidatorSorted(vs[..|vs| - 1], v);
      AddValidatorAbove(vs[..|vs| - 1], v, vs[|vs| - 1].stake);
    }
  }

  /** A new entry goes behind everyone with at least its stake and before the rest. */
  lemma {:induction false} AddValidatorPosition(vs: Validators, v: ValidatorInfo) returns (k: nat)
    requires ByStake(vs)
    ensures k <= |vs| && AddValidator(vs, v) == vs[..k] + [v] + vs[k..]
    ensures forall i :: 0 <= i < |vs| ==> (i < k <==> vs[i].stake >= v.stake)
  {
    if vs == [] || vs[|vs| - 1].stake >= v.stake {
      k := |vs|;
    } else {
      var rest, last := vs[..|vs| - 1], vs[|vs| - 1];
      k := AddValidatorPosition(rest, v);
      SplitLast(vs, k);
      assert AddValidator(vs, v) == rest[..k] + [v] + (rest[k..] + [last]);
    }
  }

  lemma SplitLast(vs: Validators, k: nat)
    requires k < |vs|
    ensures var rest := vs[..|vs| - 1]; vs[k..] == rest[k..] + [vs[|vs| - 1]] && vs[..k] == rest[..k]
  {}

  function Active(vs: Validators): Validators {
    if vs == [] then []
    else
      var v := vs[|vs| - 1];
      if v.active then Active(vs[..|vs| - 1]) + [v] else Active(vs[..|vs| - 1])
  }

  predicate Contains(vs: Validators, address: ByteString) {
    exists i :: 0 <= i < |vs| && vs[i].address == address && vs[i].active
  }

  function QuorumThreshold(vs: Validators): nat {
    var n := |Active(vs)|;
    if n == 0 then 0 else 2 * n / 3 + 1
  }

  function ProposerForRound(vs: Validators, round: u64): Option<ValidatorInfo> {
    var active := Active(vs);
    if active == [] then None else Some(active[round % |active|])
  }

  /** The number of active entries before position `i`. */
  function ActiveBefore(vs: Validators, i: nat): nat
    requires i <= |vs|
  {
    if i == 0 then 0 else ActiveBefore(vs, i - 1) + (if vs[i - 1].active then 1 else 0)
  }

  lemma {:induction false} ActiveBeforePrefix(vs: Validators, n: nat, i: nat)
    requires i <= n <= |vs|
    ensures ActiveBefore(vs[..n], i) == ActiveBefore(vs, i)
  {
    if i > 0 {
      ActiveBeforePrefix(vs, n, i - 1);
    }
  }

  lemma {:induction false} ActiveRank(vs: Validators, i: nat)
    requires i < |vs| && vs[i].active
    ensures |Active(vs)| == ActiveBefore(vs, |vs|)
    ensures ActiveBefore(vs, i) < |Active(vs)| && Active(vs)[ActiveBefore(vs, i)] == vs[i]
    decreases |vs|
  {
    var n := |vs| - 1;
    ActiveCount(vs);
    ActiveCount(vs[..n]);
    ActiveBeforePrefix(vs, n, n);
    ActiveBeforePrefix(vs, n, i);
    if i < n {
      ActiveRank(vs[..n], i);
    }
  }

  lemma {:induction false} ActiveCount(vs: Validators)
    ensures |Active(vs)| == ActiveBefore(vs, |vs|)
    decreases |vs|
  {
    if vs != [] {
      ActiveCount(vs[..|vs| - 1]);
      ActiveBeforePrefix(vs, |vs| - 1, |vs| - 1);
    }
  }

  lemma {:induction false} RankExists(vs: Validators, n: nat, k: nat) returns (i: nat)
    requires n <= |vs| && k < ActiveBefore(vs, n)
    ensures i < n && vs[i].active && ActiveBefore(vs, i) == k
  {
    if k < ActiveBefore(vs, n - 1) {
      i := RankExists(vs, n - 1, k);
    } else {
      i := n - 1;
    }
  }

  /** The proposer of round r among n active entries is the active entry with exactly r mod n
      active ones before it; without active entries there is none. */
  lemma ProposerByRank(vs: Validators, round: u64) returns (i: nat)
    requires ActiveBefore(vs, |vs|) > 0
    ensures i < |vs| && vs[i].active && ActiveBefore(vs, i) == round % ActiveBefore(vs, |vs|)
    ensures ProposerForRound(vs, round) == Some(vs[i])
  {
    hide Active;
    i := RankExists(vs, |vs|, round % ActiveBefore(vs, |vs|));
    ActiveRank(vs, i);
  }

  lemma NoProposer(vs: Validators, round: u64)
    requires forall i :: 0 <= i < |vs| ==> !vs[i].active
    ensures ProposerForRound(vs, round) == None
  {
    ActiveCount(vs);
    NoneActive(vs, |vs|);
  }

  lemma {:induction false} NoneActive(vs: Validators, n: nat)
    requires n <= |vs| && forall i :: 0 <= i < |vs| ==> !vs[i].active
    ensures ActiveBefore(vs, n) == 0
  {
    if n > 0 {
      NoneActive(vs, n - 1);
    }
  }

  lemma {:induction false} RankAscends(vs: Validators, i: nat, j: nat)
    requires i <= j <= |vs|
    ensures ActiveBefore(vs, i) <= ActiveBefore(vs, j)
  {
    if i < j {
      RankAscends(vs, i, j - 1);
    }
  }

  lemma SmallMod(a: nat, n: nat)
    requires a < n
    ensures a % n == a
  {}

  lemma RankOrder(vs: Validators, i: nat, j: nat)
    requires i < |vs| && j < |vs| && vs[j].active && ActiveBefore(vs, i) <= ActiveBefore(vs, j)
    ensures i <= j
  {
    RankAscends(vs, if j < i then j + 1 else i, i);
  }

  /** Round 0 goes to an active validator of the highest stake, and over one turn of the n
      active validators stakes do not increase. */
  lemma ProposersByStake(vs: Validators, a: u64, b: u64, k: nat)
    requires ByStake(vs) && a <= b && b < ActiveBefore(vs, |vs|)
    ensures ProposerForRound(vs, a).Some? && ProposerForRound(vs, b).Some? && ProposerForRound(vs, 0).Some?
    ensures ProposerForRound(vs, a).value.stake >= ProposerForRound(vs, b).value.stake
    ensures k < |vs| && vs[k].active ==> ProposerForRound(vs, 0).value.stake >= vs[k].stake
  {
    hide Active, ProposerForRound, ActiveBefore;
    var n := ActiveBefore(vs, |vs|);
    var i := ProposerByRank(vs, a);
    var j := ProposerByRank(vs, b);
    var first := ProposerByRank(vs, 0);
    SmallMod(a, n);
    SmallMod(b, n);
    SmallMod(0, n);
    RankOrder(vs, i, j);
    if k < |vs| && vs[k].active {
      RankOrder(vs, first, k);
    }
  }

  /** The threshold is the least number above two thirds of the active entries. */
  lemma ThresholdExact(vs: Validators)
    ensures var n, q := ActiveBefore(vs, |vs|), QuorumThreshold(vs);
            if n == 0 then q == 0 else 3 * q > 2 * n && 3 * (q - 1) <= 2 * n
  {
    hide Active;
    ActiveCount(vs);
  }

  lemma MulAtLeast(n: nat, d: int)
    requires n > 0 && d >= 1
    ensures n * d >= n
  {}

  lemma DivModUnique(x: nat, n: nat, q: nat, k: nat)
    requires k < n && x == n * q + k
    ensures x % n == k
  {
    var q', k' := x / n, x % n;
    assert x == n * q' + k';
    if q > q' {
      assert n * (q - q') == k' - k;
      MulAtLeast(n, q - q');
    } else if q' > q {
      assert n * (q' - q) == k - k';
      MulAtLeast(n, q' - q);
    }
  }

  /** The offset from round `start` at which slot `slot` of `n` comes up. */
  function Offset(start: nat, n: nat, slot: nat): nat
    requires slot < n
  {
    var m := start % n;
    if slot >= m then slot - m else n + slot - m
  }

  lemma OffsetHits(start: nat, n: nat, slot: nat)
    requires slot < n
    ensures Offset(start, n, slot) < n && (start + Offset(start, n, slot)) % n == slot
  {
    var q, m := start / n, start % n;
    assert start == n * q + m;
    if slot >= m {
      DivModUnique(start + (slot - m), n, q, slot);
    } else {
      assert n * (q + 1) == n * q + n;
      DivModUnique(start + (n + slot - m), n, q + 1, slot);
    }
  }

  /** Two rounds less than `n` apart with the same slot are the same round. */
  lemma SlotOnce(a: nat, b: nat, n: nat)
    requires a <= b < a + n && a % n == b % n
    ensures a == b
  {
    var qa, qb := a / n, b / n;
    assert a == n * qa + a % n && b == n * qb + b % n;
    assert b - a == n * (qb - qa);
    if qb > qa {
      MulAtLeast(n, qb - qa);
    } else if qb < qa {
      assert n * (qa - qb) == a - b;
      MulAtLeast(n, qa - qb);
    }
  }

  /** Round-robin: in any |active| consecutive rounds each active slot proposes exactly once. */
  lemma RoundRobin(vs: Validators, start: u64, slot: nat) returns (round: u64)
    requires slot < |Active(vs)| && start + |Active(vs)| <= U64_LIMIT
    ensures start <= round < start + |Active(vs)| && ProposerForRound(vs, round) == Some(Active(vs)[slot])
    ensures forall r: u64 :: start <= r < start + |Active(vs)| && r % |Active(vs)| == slot ==> r == round
  {
    hide Active, Offset;
    var n := |Active(vs)|;
    OffsetHits(start, n, slot);
    round := start + Offset(start, n, slot);
    forall r: u64 | start <= r < start + n && r % n == slot
      ensures r == round
    {
      if r <= round {
        SlotOnce(r, round, n);
      } else {
        SlotOnce(round, r, n);
      }
    }
  }

  // ---- Votes and finality ----

  datatype Vote = Vote(validator: ByteString, blockHash: Digest, signature: ByteString, round: u64)

  /** Ed25519 verification by hex public key; a malformed key verifies nothing. */
  type Verifier = (ByteString, ByteString, ByteString) -> bool

  function VoteMessage(blockHash: Digest, round: u64): ByteString { blockHash + Le64(round) }

  /** The signed bytes: hash, then round in little-endian; they determine both. */
  lemma VoteMessageDetermines(a: Digest, r: u64, b: Digest, q: u64)
    ensures VoteMessage(a, r)[..32] == a && VoteMessage(a, r)[32..] == Le64(r)
    ensures VoteMessage(a, r) == VoteMessage(b, q) <==> a == b && r == q
  {
    hide LittleEndian;
    assert VoteMessage(a, r)[..32] == a && VoteMessage(a, r)[32..] == Le64(r);
    assert VoteMessage(b, q)[..32] == b && VoteMessage(b, q)[32..] == Le64(q);
    if Le64(r) == Le64(q) {
      Le64Injective(r, q);
    }
  }

  predicate VoteVerifies(verify: Verifier, v: Vote) {
    verify(v.validator, VoteMessage(v.blockHash, v.round), v.signature)
  }

  datatype ConsensusError =
    | DuplicateVote(validator: ByteString)
    | VoteFromNonValidator(validator: ByteString)
    | InvalidVote(validator: ByteString)
    | InsufficientVotes(have: nat, need: nat)

  datatype Tally = Tally(voters: set<ByteString>, counted: seq<Vote>, error: Option<ConsensusError>)

  /** The counting loop of `finalize_block` over the given votes, up to its first error. */
  function Count(vs: Validators, verify: Verifier, hash: Digest, votes: seq<Vote>): Tally {
    if votes == [] then Tally({}, [], None)
    else
      var t := Count(vs, verify, hash, votes[..|votes| - 1]);
      var v := votes[|votes| - 1];
      if t.error.Some? || v.blockHash != hash then t
      else if v.validator in t.voters then t.(error := Some(DuplicateVote(v.validator)))
      else if !Contains(vs, v.validator) then t.(error := Some(VoteFromNonValidator(v.validator)))
      else if !VoteVerifies(verify, v) then t.(error := Some(InvalidVote(v.validator)))
      else Tally(t.voters + {v.validator}, t.counted + [v], None)
  }

  function FinalityError(vs: Validators, verify: Verifier, hash: Digest, votes: seq<Vote>): Option<ConsensusError> {
    var t := Count(vs, verify, hash, votes);
    if t.error.Some? then t.error
    else if |t.counted| < QuorumThreshold(vs) then Some(InsufficientVotes(|t.counted|, QuorumThreshold(vs)))
    else None
  }

  /** The addresses that may vote. */
  ghost function ActiveAddresses(vs: Validators): set<ByteString> {
    set i | 0 <= i < |vs| && vs[i].active :: vs[i].address
  }

  /** Those with a valid vote for `hash` among `votes`. */
  ghost function ValidVoters(vs: Validators, verify: Verifier, hash: Digest, votes: seq<Vote>): set<ByteString> {
    set v | v in votes && v.blockHash == hash && Contains(vs, v.validator) && VoteVerifies(verify, v) :: v.validator
  }

  ghost predicate AllGood(vs: Validators, verify: Verifier, hash: Digest, votes: seq<Vote>) {
    && (forall i :: 0 <= i < |votes| && votes[i].blockHash == hash ==>
          Contains(vs, votes[i].validator) && VoteVerifies(verify, votes[i]))
    && (forall i, j :: 0 <= i < j < |votes| && votes[i].blockHash == hash && votes[j].blockHash == hash ==>
          votes[i].validator != votes[j].validator)
  }

  lemma AllGoodAppend(vs: Validators, verify: Verifier, hash: Digest, rest: seq<Vote>, v: Vote)
    ensures AllGood(vs, verify, hash, rest + [v]) <==>
              (AllGood(vs, verify, hash, rest) &&
               (v.blockHash == hash ==>
                  Contains(vs, v.validator) && VoteVerifies(verify, v) &&
                  forall i :: 0 <= i < |rest| && rest[i].blockHash == hash ==> rest[i].validator != v.validator))
  {
    hide Contains, VoteVerifies;
    var votes := rest + [v];
    assert votes[|rest|] == v && forall i :: 0 <= i < |rest| ==> votes[i] == rest[i];
  }

  lemma ValidVotersAppend(vs: Validators, verify: Verifier, hash: Digest, rest: seq<Vote>, v: Vote)
    ensures ValidVoters(vs, verify, hash, rest + [v]) == ValidVoters(vs, verify, hash, rest) +
              (if v.blockHash == hash && Contains(vs, v.validator) && VoteVerifies(verify, v)
               then {v.validator} else {})
  {
    hide Contains, VoteVerifies;
    assert forall u :: u in rest + [v] <==> u in rest || u == v;
  }

  lemma VotersAreValid(vs: Validators, verify: Verifier, hash: Digest, votes: seq<Vote>, address: ByteString)
    requires AllGood(vs, verify, hash, votes)
    ensures address in ValidVoters(vs, verify, hash, votes) <==>
              exists i :: 0 <= i < |votes| && votes[i].blockHash == hash && votes[i].validator == address
  {
    hide Contains, VoteVerifies;
  }

  lemma NoVotes(vs: Validators, verify: Verifier, hash: Digest)
    ensures AllGood(vs, verify, hash, []) && ValidVoters(vs, verify, hash, []) == {}
  {}

  /** Counting succeeds exactly when the votes for the block are all by distinct active
      validators and all verify; it then counts each valid voter once. */
  lemma {:induction false} CountCorrect(vs: Validators, verify: Verifier, hash: Digest, votes: seq<Vote>)
    ensures Count(vs, verify, hash, votes).error.None? <==> AllGood(vs, verify, hash, votes)
    ensures Count(vs, verify, hash, votes).error.None? ==>
              var t := Count(vs, verify, hash, votes);
              t.voters == ValidVoters(vs, verify, hash, votes) && |t.counted| == |t.voters|
  {
    hide Contains, VoteVerifies, AllGood, ValidVoters;
    if votes == [] {
      NoVotes(vs, verify, hash);
    } else {
      var n := |votes| - 1;
      var rest, v := votes[..n], votes[n];
      assert votes == rest + [v];
      CountCorrect(vs, verify, hash, rest);
      AllGoodAppend(vs, verify, hash, rest, v);
      ValidVotersAppend(vs, verify, hash, rest, v);
      if AllGood(vs, verify, hash, rest) {
        VotersAreValid(vs, verify, hash, rest, v.validator);
      }
    }
  }

  /** The given votes for the hash, in order. */
  function VotesFor(hash: Digest, votes: seq<Vote>): seq<Vote> {
    if votes == [] then []
    else
      var v := votes[|votes| - 1];
      VotesFor(hash, votes[..|votes| - 1]) + (if v.blockHash == hash then [v] else [])
  }

  /** A successful count counts exactly the votes for the hash, in order. */
  lemma {:induction false} CountedExactly(vs: Validators, verify: Verifier, hash: Digest, votes: seq<Vote>)
    requires Count(vs, verify, hash, votes).error.None?
    ensures Count(vs, verify, hash, votes).counted == VotesFor(hash, votes)
  {
    hide Contains, VoteVerifies;
    if votes != [] {
      CountedExactly(vs, verify, hash, votes[..|votes| - 1]);
    }
  }

  /** Without a bad vote for the hash a block is final exactly when as many votes for it as the threshold asks are
      there, and the refusal names both numbers; with one, the refusal is that vote's. */
  lemma FinalityExactly(vs: Validators, verify: Verifier, hash: Digest, votes: seq<Vote>)
    ensures AllGood(vs, verify, hash, votes) ==>
              var have, need := |VotesFor(hash, votes)|, QuorumThreshold(vs);
              FinalityError(vs, verify, hash, votes) ==
              if have < need then Some(InsufficientVotes(have, need)) else None
    ensures !AllGood(vs, verify, hash, votes) ==>
              FinalityError(vs, verify, hash, votes) == Count(vs, verify, hash, votes).error != None
  {
    hide Count, AllGood, VotesFor, QuorumThreshold;
    CountCorrect(vs, verify, hash, votes);
    if AllGood(vs, verify, hash, votes) {
      CountedExactly(vs, verify, hash, votes);
    }
  }

  /** A failed count names the first bad vote for the hash: a repeated validator before an
      unknown one before a bad signature over the vote's own hash and round. */
  lemma {:induction false} CountFails(vs: Validators, verify: Verifier, hash: Digest, votes: seq<Vote>) returns (i: nat)
    requires Count(vs, verify, hash, votes).error.Some?
    ensures FirstBadVote(vs, verify, hash, votes, i, Count(vs, verify, hash, votes).error.value)
  {
    hide Contains, AllGood, VoteVerifies;
    var n := |votes| - 1;
    var rest, v := votes[..n], votes[n];
    var t := Count(vs, verify, hash, rest);
    if t.error.Some? {
      i := CountFails(vs, verify, hash, rest);
      BadVoteStays(vs, verify, hash, votes, n, i, t.error.value);
    } else {
      i := n;
      CountCorrect(vs, verify, hash, rest);
      VotersAreValid(vs, verify, hash, rest, v.validator);
      VotedBefore(votes, hash, n, v.validator);
      assert VoteVerifies(verify, v) <==> verify(v.validator, v.blockHash + Le64(v.round), v.signature) by {
        VoteVerifiesMessage(verify, v);
      }
    }
  }

  lemma VoteVerifiesMessage(verify: Verifier, v: Vote)
    ensures VoteVerifies(verify, v) <==> verify(v.validator, v.blockHash + Le64(v.round), v.signature)
  {}

  ghost predicate Voted(votes: seq<Vote>, hash: Digest, n: nat, validator: ByteString)
    requires n <= |votes|
  {
    exists j :: 0 <= j < n && votes[j].blockHash == hash && votes[j].validator == validator
  }

  lemma VotedBefore(votes: seq<Vote>, hash: Digest, n: nat, validator: ByteString)
    requires n <= |votes|
    ensures Voted(votes, hash, n, validator) <==> Voted(votes[..n], hash, n, validator)
  {
    assert forall j :: 0 <= j < n ==> votes[..n][j] == votes[j];
  }

  lemma BadVoteStays(vs: Validators, verify: Verifier, hash: Digest, votes: seq<Vote>, n: nat, i: nat,
                     e: ConsensusError)
    requires n <= |votes| && FirstBadVote(vs, verify, hash, votes[..n], i, e)
    ensures FirstBadVote(vs, verify, hash, votes, i, e)
  {
    hide Contains, AllGood;
    assert votes[..n][..i] == votes[..i] && votes[..n][i] == votes[i];
    VotedBefore(votes, hash, i, votes[i].validator);
    VotedBefore(votes[..n], hash, i, votes[i].validator);
  }

  ghost predicate FirstBadVote(vs: Validators, verify: Verifier, hash: Digest, votes: seq<Vote>, i: int,
                               e: ConsensusError)
  {
    && 0 <= i < |votes| && votes[i].blockHash == hash && AllGood(vs, verify, hash, votes[..i])
    && var v := votes[i];
       if Voted(votes, hash, i, v.validator) then e == DuplicateVote(v.validator)
       else if !Contains(vs, v.validator) then e == VoteFromNonValidator(v.validator)
       else e == InvalidVote(v.validator) && !verify(v.validator, v.blockHash + Le64(v.round), v.signature)
  }

  // ---- Quorum intersection and reachability ----

  lemma {:induction false} AddressesAtMostActive(vs: Validators)
    ensures |ActiveAddresses(vs)| <= |Active(vs)|
    decreases |vs|
  {
    if vs == [] {
      assert ActiveAddresses(vs) == {};
    } else {
      var rest, v := vs[..|vs| - 1], vs[|vs| - 1];
      AddressesAtMostActive(rest);
      assert ActiveAddresses(vs) == ActiveAddresses(rest) + (if v.active then {v.address} else {});
    }
  }

  /** With no address entered twice, there is one address per active entry. */
  lemma {:induction false} DistinctAddresses(vs: Validators)
    requires forall i, j :: 0 <= i < j < |vs| && vs[i].active && vs[j].active ==> vs[i].address != vs[j].address
    ensures |ActiveAddresses(vs)| == |Active(vs)|
    decreases |vs|
  {
    if vs == [] {
      assert ActiveAddresses(vs) == {};
    } else {
      var rest, v := vs[..|vs| - 1], vs[|vs| - 1];
      DistinctAddresses(rest);
      assert ActiveAddresses(vs) == ActiveAddresses(rest) + (if v.active then {v.address} else {});
      assert v.active ==> v.address !in ActiveAddresses(rest);
    }
  }

  lemma QuorumArithmetic(n: nat)
    requires n >= 1
    ensures 2 * (2 * n / 3 + 1) - n >= (n - 1) / 3 + 1
    ensures n - (n - 1) / 3 >= 2 * n / 3 + 1
  {}

  lemma ValidVotersActive(vs: Validators, verify: Verifier, hash: Digest, votes: seq<Vote>)
    ensures ValidVoters(vs, verify, hash, votes) <= ActiveAddresses(vs)
  {}

  /** Safety: two finalized hashes under one active set of n validators share at least
      floor((n-1)/3) + 1 validators with a valid vote for each. */
  lemma QuorumIntersection(vs: Validators, verify: Verifier, hash1: Digest, votes1: seq<Vote>,
                           hash2: Digest, votes2: seq<Vote>)
    requires |Active(vs)| >= 1
    requires FinalityError(vs, verify, hash1, votes1) == None && FinalityError(vs, verify, hash2, votes2) == None
    ensures |ValidVoters(vs, verify, hash1, votes1) * ValidVoters(vs, verify, hash2, votes2)|
         >= (|Active(vs)| - 1) / 3 + 1
  {
    hide Count, Active, ActiveAddresses, ValidVoters;
    var v1, v2 := ValidVoters(vs, verify, hash1, votes1), ValidVoters(vs, verify, hash2, votes2);
    CountCorrect(vs, verify, hash1, votes1);
    CountCorrect(vs, verify, hash2, votes2);
    ValidVotersActive(vs, verify, hash1, votes1);
    ValidVotersActive(vs, verify, hash2, votes2);
    SubsetSize(v1 + v2, ActiveAddresses(vs));
    AddressesAtMostActive(vs);
    QuorumArithmetic(|Active(vs)|);
    assert |v1 + v2| + |v1 * v2| == |v1| + |v2|;
  }

  /** Reachability: the votes of any n - floor((n-1)/3) distinct active validators finalize. */
  lemma QuorumReachable(vs: Validators, verify: Verifier, hash: Digest, votes: seq<Vote>)
    requires |Active(vs)| >= 1 && AllGood(vs, verify, hash, votes)
    requires |ValidVoters(vs, verify, hash, votes)| >= |Active(vs)| - (|Active(vs)| - 1) / 3
    ensures FinalityError(vs, verify, hash, votes) == None
  {
    hide Count, Active, ValidVoters, AllGood;
    CountCorrect(vs, verify, hash, votes);
    QuorumArithmetic(|Active(vs)|);
  }

  /** The threshold counts entries, the votes count addresses: with the valid votes of all
      active addresses a block is final exactly when there are as many addresses as the
      threshold asks for, and without that many it never is. */
  lemma FullVoteFinality(vs: Validators, verify: Verifier, hash: Digest, votes: seq<Vote>)
    ensures FinalityError(vs, verify, hash, votes) == None ==> QuorumThreshold(vs) <= |ActiveAddresses(vs)|
    ensures AllGood(vs, verify, hash, votes) && ValidVoters(vs, verify, hash, votes) == ActiveAddresses(vs) ==>
              (FinalityError(vs, verify, hash, votes) == None <==> QuorumThreshold(vs) <= |ActiveAddresses(vs)|)
  {
    hide Count, Active, ActiveAddresses, ValidVoters, AllGood;
    CountCorrect(vs, verify, hash, votes);
    ValidVotersActive(vs, verify, hash, votes);
    SubsetSize(ValidVoters(vs, verify, hash, votes), ActiveAddresses(vs));
  }

  /** Every active validator can produce a vote for the block that verifies. */
  ghost predicate CanSign(vs: Validators, verify: Verifier, hash: Digest) {
    forall a :: a in ActiveAddresses(vs) ==> exists v: Vote :: IsVote(verify, hash, a, v)
  }

  ghost predicate IsVote(verify: Verifier, hash: Digest, a: ByteString, v: Vote) {
    v.validator == a && v.blockHash == hash && VoteVerifies(verify, v)
  }

  lemma {:induction false} VotesOf(vs: Validators, verify: Verifier, hash: Digest, voters: set<ByteString>)
    returns (votes: seq<Vote>)
    requires CanSign(vs, verify, hash) && voters <= ActiveAddresses(vs)
    ensures AllGood(vs, verify, hash, votes) && ValidVoters(vs, verify, hash, votes) == voters
    decreases |voters|
  {
    hide VoteVerifies, ValidVoters, AllGood;
    if voters == {} {
      NoVotes(vs, verify, hash);
      votes := [];
    } else {
      var a :| a in voters;
      var rest := VotesOf(vs, verify, hash, voters - {a});
      var v :| IsVote(verify, hash, a, v);
      VotersAreValid(vs, verify, hash, rest, a);
      AllGoodAppend(vs, verify, hash, rest, v);
      ValidVotersAppend(vs, verify, hash, rest, v);
      votes := rest + [v];
    }
  }

  /** A block can be finalized at all exactly when the active addresses reach the threshold. */
  lemma FinalityReachable(vs: Validators, verify: Verifier, hash: Digest)
    requires CanSign(vs, verify, hash)
    ensures (exists votes :: FinalityError(vs, verify, hash, votes) == None) <==>
              QuorumThreshold(vs) <= |ActiveAddresses(vs)|
  {
    hide FinalityError, QuorumThreshold, ActiveAddresses, ValidVoters, AllGood, CanSign;
    var votes := VotesOf(vs, verify, hash, ActiveAddresses(vs));
    FullVoteFinality(vs, verify, hash, votes);
    if other :| FinalityError(vs, verify, hash, other) == None {
      FullVoteFinality(vs, verify, hash, other);
    }
  }

  /** So a set whose active entries, two or more, all carry one address finalizes nothing. */
  lemma OneAddressNeverFinal(vs: Validators, address: ByteString, verify: Verifier, hash: Digest, votes: seq<Vote>)
    requires |Active(vs)| >= 2 && ActiveAddresses(vs) == {address}
    ensures FinalityError(vs, verify, hash, votes).Some?
  {
    hide Count, ActiveAddresses, Active;
    FullVoteFinality(vs, verify, hash, votes);
  }

  // ---- The engine ----

  datatype Phase = Propose | Prevote | Precommit | Commit

  datatype FinalizedBlock = FinalizedBlock(block: Block, votes: seq<Vote>, round: u64)

  datatype Finality = Finalized(value: FinalizedBlock) | NotFinalized(error: ConsensusError)

  class ConsensusEngine {
    const verify: Verifier
    var validators: Validators
    var currentRound: u64
    var currentPhase: Phase
    var nextHeight: u64
    var lastBlockHash: Digest

    constructor (verify: Verifier, validators: Validators)
      ensures this.verify == verify && this.validators == validators
      ensures currentRound == 0 && currentPhase == Propose && nextHeight == 0 && lastBlockHash == ZERO_DIGEST
    {
      this.verify := verify;
      this.validators := validators;
      this.currentRound := 0;
      this.currentPhase := Propose;
      this.nextHeight := 0;
      this.lastBlockHash := ZERO_DIGEST;
    }

    method SetChainState(height: u64, lastHash: Digest)
      modifies this`nextHeight, this`lastBlockHash
      ensures nextHeight == height && lastBlockHash == lastHash
    {
      nextHeight := height;
      lastBlockHash := lastHash;
    }

    /** Neither the votes' rounds nor the block's height are looked at. */
    method FinalizeBlock(block: Block, votes: seq<Vote>) returns (r: Finality)
      modifies this
      ensures validators == old(validators)
      ensures match FinalityError(validators, verify, block.header.hash, votes)
              case Some(e) =>
                && r == NotFinalized(e) && currentRound == old(currentRound) && currentPhase == old(currentPhase)
                && nextHeight == old(nextHeight) && lastBlockHash == old(lastBlockHash)
              case None =>
                && r == Finalized(FinalizedBlock(block, Count(validators, verify, block.header.hash, votes).counted,
                                                 old(currentRound)))
                && lastBlockHash == block.header.hash && nextHeight == WrapAdd(old(nextHeight), 1)
                && currentRound == WrapAdd(old(currentRound), 1) && currentPhase == Propose
    {
      hide Contains, VoteVerifies, Active;
      var hash := block.header.hash;
      var quorum := QuorumThreshold(validators);
      var seen: set<ByteString> := {};
      var valid: seq<Vote> := [];
      for i := 0 to |votes|
        modifies {}
        invariant Tally(seen, valid, None) == Count(validators, verify, hash, votes[..i])
      {
        var vote := votes[i];
        assert votes[..i + 1][..i] == votes[..i];
        CountStops(validators, verify, hash, votes, i + 1);
        if vote.blockHash != hash {
          continue;
        }
        if vote.validator in seen {
          return NotFinalized(DuplicateVote(vote.validator));
        }
        if !Contains(validators, vote.validator) {
          return NotFinalized(VoteFromNonValidator(vote.validator));
        }
        if !VoteVerifies(verify, vote) {
          return NotFinalized(InvalidVote(vote.validator));
        }
        seen := seen + {vote.validator};
        valid := valid + [vote];
      }
      assert votes[..|votes|] == votes;
      if |valid| < quorum {
        return NotFinalized(InsufficientVotes(|valid|, quorum));
      }
      r := Finalized(FinalizedBlock(block, valid, currentRound));
      lastBlockHash := hash;
      nextHeight := WrapAdd(nextHeight, 1);
      currentRound := WrapAdd(currentRound, 1);
      currentPhase := Propose;
    }

    method AdvanceRound()
      modifies this`currentRound, this`currentPhase
      ensures currentRound == WrapAdd(old(currentRound), 1) && currentPhase == Propose
    {
      currentRound := WrapAdd(currentRound, 1);
      currentPhase := Propose;
    }
  }

  lemma {:induction false} CountStops(vs: Validators, verify: Verifier, hash: Digest, votes: seq<Vote>, n: nat)
    requires n <= |votes|
    ensures Count(vs, verify, hash, votes[..n]).error.Some? ==>
              Count(vs, verify, hash, votes).error == Count(vs, verify, hash, votes[..n]).error
    decreases |votes|
  {
    hide Contains, VoteVerifies;
    if n < |votes| {
      var rest := votes[..|votes| - 1];
      assert rest[..n] == votes[..n];
      CountStops(vs, verify, hash, rest, n);
    } else {
      assert votes[..n] == votes;
    }
  }
}
