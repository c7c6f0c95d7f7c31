/** The benchmark client's quorum collection: a vote round, a certificate round, their in-flight gauges, and the
    background waits for stragglers. Replies come in as sequences in order of arrival; every order is some input. */
module QuorumClient {
  import opened Options

  type Authority = nat

  datatype Committee = Committee(weights: map<Authority, nat>, quorum: nat) {
    function Weight(a: Authority): nat {
      if a in weights then weights[a] else 0
    }
  }

  /** Replies to the transaction: a vote, a transaction executed before (maybe with its certificate), or an error. */
  datatype VoteReply = Signed(authority: Authority, epoch: nat) | Executed(certificate: Option<nat>) | Refused

  /** Replies to the certificate: signed effects with events, or an error. */
  datatype CertReply = Effects(author: Authority, data: nat, events: nat) | Rejected

  datatype Certificate = Existing(id: nat) | Assembled(epoch: nat, signers: set<Authority>)

  datatype Outcome = Panicked | Bailed | Done(certificate: Certificate, data: nat, events: nat)

  // ----- what the replies add up to

  function VoteStake(c: Committee, votes: seq<VoteReply>): nat {
    if votes == [] then 0 else
      var v := votes[|votes| - 1];
      VoteStake(c, votes[..|votes| - 1]) + if v.Signed? then c.Weight(v.authority) else 0
  }

  function Signers(votes: seq<VoteReply>): set<Authority> {
    set v | v in votes && v.Signed? :: v.authority
  }

  /** The certificate some authority already had, the latest heard of. */
  function Found(votes: seq<VoteReply>): Option<nat> {
    if votes == [] then None else
      var v := votes[|votes| - 1];
      if v.Executed? && v.certificate.Some? then v.certificate else Found(votes[..|votes| - 1])
  }

  /** The epoch of the latest vote. */
  function Epoch(votes: seq<VoteReply>): nat {
    if votes == [] then 0 else
      var v := votes[|votes| - 1];
      if v.Signed? then v.epoch else Epoch(votes[..|votes| - 1])
  }

  /** The certificate sent on; `None` is a panic over an unknown signer or signatures that do not aggregate. */
  function CertificateFrom(c: Committee, votes: seq<VoteReply>, aggregates: bool): Option<Certificate> {
    if Found(votes).Some? then Some(Existing(Found(votes).value))
    else if Signers(votes) <= c.weights.Keys && aggregates then Some(Assembled(Epoch(votes), Signers(votes)))
    else None
  }

  /** The stake behind a reply; an error has none. */
  function Worth(c: Committee, r: CertReply): nat {
    if r.Effects? then c.Weight(r.author) else 0
  }

  function EffectStake(c: Committee, certs: seq<CertReply>): nat {
    if certs == [] then 0 else EffectStake(c, certs[..|certs| - 1]) + Worth(c, certs[|certs| - 1])
  }

  lemma OneMoreReply(c: Committee, certs: seq<CertReply>, r: CertReply)
    ensures EffectStake(c, certs + [r]) == EffectStake(c, certs) + Worth(c, r)
  {
    assert (certs + [r])[..|certs|] == certs;
  }

  lemma {:induction false} EffectStakeGrows(c: Committee, certs: seq<CertReply>, k: nat)
    requires k <= |certs|
    ensures EffectStake(c, certs[..k]) <= EffectStake(c, certs)
  {
    if k < |certs| {
      var n := |certs| - 1;
      EffectStakeGrows(c, certs[..n], k);
      assert certs[..n][..k] == certs[..k];
    } else {
      assert certs[..k] == certs;
    }
  }

  /** One more reply. */
  lemma OneMoreVote(c: Committee, votes: seq<VoteReply>, k: nat)
    requires k < |votes|
    ensures
      var (before, after, v) := (votes[..k], votes[..k + 1], votes[k]);
      && VoteStake(c, after) == VoteStake(c, before) + (if v.Signed? then c.Weight(v.authority) else 0)
      && Epoch(after) == (if v.Signed? then v.epoch else Epoch(before))
      && Signers(after) == Signers(before) + (if v.Signed? then {v.authority} else {})
      && Found(after) == (if v.Executed? && v.certificate.Some? then v.certificate else Found(before))
  {
    assert votes[..k + 1][..k] == votes[..k] && votes[..k + 1] == votes[..k] + [votes[k]];
  }

  // ----- stake by authority

  /** Who sent effects, once for each reply. */
  function EffectAuthors(certs: seq<CertReply>): seq<Authority> {
    if certs == [] then [] else
      var r := certs[|certs| - 1];
      EffectAuthors(certs[..|certs| - 1]) + if r.Effects? then [r.author] else []
  }

  /** Who voted, once for each vote. */
  function Voters(votes: seq<VoteReply>): seq<Authority> {
    if votes == [] then [] else
      var v := votes[|votes| - 1];
      Voters(votes[..|votes| - 1]) + if v.Signed? then [v.authority] else []
  }

  /** The weights of those in `who`, each as often as it occurs in `senders`. */
  ghost function Tally(weights: map<Authority, nat>, senders: multiset<Authority>, who: set<Authority>): nat
    requires who <= weights.Keys
    decreases |who|
  {
    if who == {} then 0 else
      var a :| a in who;
      weights[a] * senders[a] + Tally(weights, senders, who - {a})
  }

  lemma {:induction false} TallyWithout(
    weights: map<Authority, nat>, senders: multiset<Authority>, who: set<Authority>, a: Authority)
    requires who <= weights.Keys && a in who
    ensures Tally(weights, senders, who) == weights[a] * senders[a] + Tally(weights, senders, who - {a})
    decreases |who|
  {
    var b :| b in who && Tally(weights, senders, who) == weights[b] * senders[b] + Tally(weights, senders, who - {b});
    if a != b {
      TallyWithout(weights, senders, who - {b}, a);
      TallyWithout(weights, senders, who - {a}, b);
      assert who - {b} - {a} == who - {a} - {b};
    }
  }

  lemma {:induction false} TallySame(
    weights: map<Authority, nat>, s: multiset<Authority>, t: multiset<Authority>, who: set<Authority>)
    requires who <= weights.Keys && forall a | a in who :: s[a] == t[a]
    ensures Tally(weights, s, who) == Tally(weights, t, who)
    decreases |who|
  {
    if who != {} {
      var a :| a in who;
      TallyWithout(weights, s, who, a);
      TallyWithout(weights, t, who, a);
      TallySame(weights, s, t, who - {a});
    }
  }

  lemma {:induction false} TallyNone(weights: map<Authority, nat>, who: set<Authority>)
    requires who <= weights.Keys
    ensures Tally(weights, multiset{}, who) == 0
    decreases |who|
  {
    if who != {} {
      var a :| a in who;
      TallyWithout(weights, multiset{}, who, a);
      TallyNone(weights, who - {a});
    }
  }

  /** One more sender adds its weight, or nothing if it is not a member. */
  lemma TallyOneMore(c: Committee, senders: multiset<Authority>, a: Authority)
    ensures var more := senders + multiset{a};
            Tally(c.weights, more, c.weights.Keys) == Tally(c.weights, senders, c.weights.Keys) + c.Weight(a)
  {
    hide Tally;
    var more, all := senders + multiset{a}, c.weights.Keys;
    if a in all {
      TallyWithout(c.weights, senders, all, a);
      TallyWithout(c.weights, more, all, a);
      TallySame(c.weights, senders, more, all - {a});
      OneMoreTime(c.weights[a], senders[a]);
      assert more[a] == senders[a] + 1;
    } else {
      TallySame(c.weights, senders, more, all);
    }
  }

  lemma OneMoreTime(w: nat, n: nat)
    ensures w * (n + 1) == w * n + w
  {
  }

  /** The stake behind replies with effects: over the members, weight times number of replies. */
  lemma {:induction false} EffectStakeExactly(c: Committee, certs: seq<CertReply>)
    ensures EffectStake(c, certs) == Tally(c.weights, multiset(EffectAuthors(certs)), c.weights.Keys)
  {
    if certs == [] {
      TallyNone(c.weights, c.weights.Keys);
    } else {
      var init, r := certs[..|certs| - 1], certs[|certs| - 1];
      EffectStakeExactly(c, init);
      if r.Effects? {
        assert multiset(EffectAuthors(certs)) == multiset(EffectAuthors(init)) + multiset{r.author};
        TallyOneMore(c, multiset(EffectAuthors(init)), r.author);
      } else {
        assert EffectAuthors(certs) == EffectAuthors(init);
      }
    }
  }

  /** The same for votes. */
  lemma {:induction false} VoteStakeExactly(c: Committee, votes: seq<VoteReply>)
    ensures VoteStake(c, votes) == Tally(c.weights, multiset(Voters(votes)), c.weights.Keys)
  {
    if votes == [] {
      TallyNone(c.weights, c.weights.Keys);
    } else {
      var init, v := votes[..|votes| - 1], votes[|votes| - 1];
      VoteStakeExactly(c, init);
      if v.Signed? {
        assert multiset(Voters(votes)) == multiset(Voters(init)) + multiset{v.authority};
        TallyOneMore(c, multiset(Voters(init)), v.authority);
      } else {
        assert Voters(votes) == Voters(init);
      }
    }
  }

  /** The weights of the members of `who`. */
  ghost function TotalWeight(weights: map<Authority, nat>, who: set<Authority>): nat
    requires who <= weights.Keys
  {
    Tally(weights, multiset(who), who)
  }

  lemma {:induction false} TallyOutsiders(
    weights: map<Authority, nat>, senders: multiset<Authority>, who: set<Authority>, all: set<Authority>)
    requires who <= all <= weights.Keys && forall a | a in all - who :: senders[a] == 0
    ensures Tally(weights, senders, all) == Tally(weights, senders, who)
    decreases |all|
  {
    if a :| a in all - who {
      TallyWithout(weights, senders, all, a);
      TallyOutsiders(weights, senders, who, all - {a});
    } else {
      forall a | a in all ensures a in who { assert a !in all - who; }
      assert all == who;
    }
  }

  /** When no authority answers twice, the stake is the total weight of the members that sent effects. */
  lemma DistinctStake(c: Committee, certs: seq<CertReply>)
    requires forall a :: multiset(EffectAuthors(certs))[a] <= 1
    ensures var senders := set a | a in EffectAuthors(certs);
            EffectStake(c, certs) == TotalWeight(c.weights, senders * c.weights.Keys)
  {
    var authors := EffectAuthors(certs);
    var who := (set a | a in authors) * c.weights.Keys;
    EffectStakeExactly(c, certs);
    forall a | a in c.weights.Keys - who ensures multiset(authors)[a] == 0 { assert a !in authors; }
    TallyOutsiders(c.weights, multiset(authors), who, c.weights.Keys);
    forall a | a in who ensures multiset(authors)[a] == multiset(who)[a] { assert a in multiset(authors); }
    TallySame(c.weights, multiset(authors), multiset(who), who);
  }

  // ----- what certificate is sent on

  /** Latest of the first `k` votes. */
  ghost predicate LastVote(votes: seq<VoteReply>, k: nat, i: nat) {
    i < k <= |votes| && votes[i].Signed? && forall j | i < j < k :: !votes[j].Signed?
  }

  lemma {:induction false} EpochExactly(votes: seq<VoteReply>)
    ensures forall i: nat | LastVote(votes, |votes|, i) :: Epoch(votes) == votes[i].epoch
    ensures (forall i | 0 <= i < |votes| :: !votes[i].Signed?) ==> Epoch(votes) == 0
  {
    if votes != [] {
      var init := votes[..|votes| - 1];
      EpochExactly(init);
      forall i: nat | LastVote(votes, |votes|, i) ensures Epoch(votes) == votes[i].epoch {
        if i < |init| { assert LastVote(init, |init|, i) && init[i] == votes[i]; }
      }
      assert forall i | 0 <= i < |init| :: init[i] == votes[i];
    }
  }

  lemma {:induction false} FoundExactly(votes: seq<VoteReply>)
    ensures Found(votes).None? <==>
            forall i | 0 <= i < |votes| :: votes[i].Executed? ==> votes[i].certificate.None?
    ensures votes != [] && Found(votes[..|votes| - 1]).None? ==>
              Found(votes) == var v := votes[|votes| - 1]; if v.Executed? then v.certificate else None
  {
    if votes != [] {
      var init := votes[..|votes| - 1];
      FoundExactly(init);
      assert forall i | 0 <= i < |init| :: init[i] == votes[i];
    }
  }

  /** From the replies a round reads: the certificate in the last of them if it has one; else one assembled from
      exactly the voters, in the epoch of the latest vote, provided all voters are members and their signatures
      aggregate; else a panic. */
  lemma CertificateExactly(c: Committee, votes: seq<VoteReply>, k: nat, aggregates: bool)
    requires VotesRead(c, votes, k)
    ensures var r := CertificateFrom(c, votes[..k], aggregates);
            if k > 0 && votes[k - 1].Executed? && votes[k - 1].certificate.Some?
            then r == Some(Existing(votes[k - 1].certificate.value))
            else
              && (r.Some? <==>
                    aggregates && forall i | 0 <= i < k && votes[i].Signed? :: votes[i].authority in c.weights)
              && (r.Some? ==>
                    && r.value.Assembled?
                    && r.value.signers == (set i | 0 <= i < k && votes[i].Signed? :: votes[i].authority)
                    && (forall i: nat | LastVote(votes, k, i) :: r.value.epoch == votes[i].epoch)
                    && ((forall i | 0 <= i < k :: !votes[i].Signed?) ==> r.value.epoch == 0))
  {
    var read := votes[..k];
    assert forall i | 0 <= i < k :: read[i] == votes[i];
    if k > 0 {
      assert read[..k - 1] == votes[..k - 1];
      if k > 1 { assert !VotesSuffice(c, votes[..k - 1]); }
    }
    FoundExactly(read);
    EpochExactly(read);
    assert forall i: nat | LastVote(votes, k, i) :: LastVote(read, |read|, i);
    forall a ensures a in Signers(read) <==> a in set i | 0 <= i < k && votes[i].Signed? :: votes[i].authority {
      if i :| 0 <= i < k && votes[i].Signed? && votes[i].authority == a { assert read[i] in read; }
    }
  }

  // ----- how far each loop reads

  predicate VotesSuffice(c: Committee, votes: seq<VoteReply>) {
    VoteStake(c, votes) >= c.quorum || Found(votes).Some?
  }

  /** Votes suffice exactly when their tally reaches the quorum or one of the replies brings a certificate. */
  lemma VotesSufficeExactly(c: Committee, votes: seq<VoteReply>)
    ensures VotesSuffice(c, votes) <==>
            || Tally(c.weights, multiset(Voters(votes)), c.weights.Keys) >= c.quorum
            || exists i :: 0 <= i < |votes| && votes[i].Executed? && votes[i].certificate.Some?
  {
    VoteStakeExactly(c, votes);
    FoundExactly(votes);
  }

  /** `k` replies are read: the first of the sufficient non-empty prefixes, or all. */
  ghost predicate VotesRead(c: Committee, votes: seq<VoteReply>, k: nat) {
    && k <= |votes|
    && (forall j | 0 < j < k :: !VotesSuffice(c, votes[..j]))
    && (k == |votes| || (k > 0 && VotesSuffice(c, votes[..k])))
  }

  ghost predicate CertsRead(c: Committee, certs: seq<CertReply>, k: nat) {
    && k <= |certs|
    && (forall j | 0 < j < k :: EffectStake(c, certs[..j]) < c.quorum)
    && (k == |certs| || (k > 0 && EffectStake(c, certs[..k]) >= c.quorum))
  }

  /** None of the first `k` replies completed the quorum. */
  ghost predicate NotYet(c: Committee, certs: seq<CertReply>, k: nat) {
    k <= |certs| && forall j | 0 < j <= k :: EffectStake(c, certs[..j]) < c.quorum
  }

  ghost predicate AnyEffects(certs: seq<CertReply>, k: nat) {
    k <= |certs| && exists i :: 0 <= i < k && certs[i].Effects?
  }

  lemma CertsStart(c: Committee, certs: seq<CertReply>)
    ensures NotYet(c, certs, 0) && !AnyEffects(certs, 0) && EffectStake(c, certs[..0]) == 0
  {
  }

  lemma CertsStep(c: Committee, certs: seq<CertReply>, k: nat)
    requires k < |certs|
    ensures EffectStake(c, certs[..k + 1]) == EffectStake(c, certs[..k]) + Worth(c, certs[k])
    ensures AnyEffects(certs, k + 1) <==> AnyEffects(certs, k) || certs[k].Effects?
    ensures NotYet(c, certs, k) && EffectStake(c, certs[..k + 1]) < c.quorum ==> NotYet(c, certs, k + 1)
  {
    assert certs[..k + 1] == certs[..k] + [certs[k]];
    hide EffectStake;
    OneMoreReply(c, certs[..k], certs[k]);
  }

  lemma CertsDone(c: Committee, certs: seq<CertReply>, k: nat)
    requires k == |certs| || (k < |certs| && k > 0 && EffectStake(c, certs[..k]) >= c.quorum)
    requires NotYet(c, certs, if k > 0 && EffectStake(c, certs[..k]) >= c.quorum then k - 1 else k)
    ensures CertsRead(c, certs, k)
    ensures AnyEffects(certs, k) <==> exists i :: 0 <= i < k && certs[i].Effects?
  {
    hide EffectStake;
  }

  // ----- when the certificate round succeeds

  /** With a positive quorum: exactly when the replies with effects carry quorum stake, in whatever order. With a zero
      quorum: when the first reply has effects. */
  predicate EnoughEffects(c: Committee, certs: seq<CertReply>) {
    if c.quorum > 0 then EffectStake(c, certs) >= c.quorum else certs != [] && certs[0].Effects?
  }

  /** Replies still out that nobody will account for: a zero quorum satisfied by an error. */
  function Leak(c: Committee, certs: seq<CertReply>): nat {
    if c.quorum == 0 && certs != [] && certs[0].Rejected? then |certs| - 1 else 0
  }

  /** Where the loop stops decides success, and a successful loop stopped at the reply that completed the quorum. */
  lemma StopDecides(c: Committee, certs: seq<CertReply>, k: nat)
    requires CertsRead(c, certs, k)
    ensures EnoughEffects(c, certs) <==>
            EffectStake(c, certs[..k]) >= c.quorum && exists i :: 0 <= i < k && certs[i].Effects?
    ensures EnoughEffects(c, certs) ==> k > 0 && certs[k - 1].Effects?
    ensures !EnoughEffects(c, certs) ==> |certs| - k == Leak(c, certs)
  {
    EffectStakeGrows(c, certs, k);
    if k > 0 {
      assert certs[..k][..k - 1] == certs[..k - 1];
      if k == 1 { assert certs[..0] == []; }
    }
    assert certs[..|certs|] == certs;
  }

  /** With a positive quorum the order of the replies does not matter to success, and nothing leaks. */
  lemma OrderIrrelevant(c: Committee, certs: seq<CertReply>, others: seq<CertReply>)
    requires c.quorum > 0 && multiset(certs) == multiset(others)
    ensures EnoughEffects(c, certs) <==> EnoughEffects(c, others)
    ensures Leak(c, certs) == 0
  {
    EffectStakeReordered(c, certs, others);
  }

  lemma {:induction false} EffectStakeWithout(c: Committee, certs: seq<CertReply>, i: nat)
    requires i < |certs|
    ensures EffectStake(c, certs) == EffectStake(c, certs[..i] + certs[i + 1..]) + Worth(c, certs[i])
  {
    hide EffectStake;
    var n := |certs| - 1;
    var init, last, rest := certs[..n], certs[n], certs[..i] + certs[i + 1..];
    assert certs == init + [last];
    OneMoreReply(c, init, last);
    if i == n {
      assert rest == init;
    } else {
      var shorter := init[..i] + init[i + 1..];
      EffectStakeWithout(c, init, i);
      assert rest == shorter + [last];
      OneMoreReply(c, shorter, last);
    }
  }

  lemma WithoutOne(certs: seq<CertReply>, i: nat)
    requires i < |certs|
    ensures multiset(certs[..i] + certs[i + 1..]) == multiset(certs) - multiset{certs[i]}
  {
    assert certs == certs[..i] + [certs[i]] + certs[i + 1..];
  }

  lemma {:induction false} EffectStakeReordered(c: Committee, certs: seq<CertReply>, others: seq<CertReply>)
    requires multiset(certs) == multiset(others)
    ensures EffectStake(c, certs) == EffectStake(c, others)
    decreases |certs|
  {
    assert |certs| == |multiset(certs)| == |multiset(others)| == |others|;
    if certs != [] {
      var n := |certs| - 1;
      assert certs[n] in multiset(certs);
      assert certs[n] in others;
      var i :| 0 <= i < |others| && others[i] == certs[n];
      WithoutOne(others, i);
      WithoutOne(certs, n);
      assert certs[..n] + certs[n + 1..] == certs[..n];
      hide EffectStake;
      EffectStakeWithout(c, others, i);
      EffectStakeWithout(c, certs, n);
      EffectStakeReordered(c, certs[..n], others[..i] + others[i + 1..]);
    }
  }

  // ----- the client

  function Total(waits: seq<nat>): nat {
    if waits == [] then 0 else Total(waits[..|waits| - 1]) + waits[|waits| - 1]
  }

  lemma {:induction false} TotalUpdate(waits: seq<nat>, i: nat, n: nat)
    requires i < |waits|
    ensures Total(waits[i := n]) == Total(waits) - waits[i] + n
  {
    var k := |waits| - 1;
    if i < k {
      TotalUpdate(waits[..k], i, n);
      assert waits[i := n][..k] == waits[..k][i := n];
    } else {
      assert waits[i := n][..k] == waits[..k];
    }
  }

  lemma TotalAppend(waits: seq<nat>, n: nat)
    ensures Total(waits + [n]) == Total(waits) + n
  {
    assert (waits + [n])[..|waits|] == waits;
  }

  lemma {:induction false} TotalZero(waits: seq<nat>)
    requires forall i | 0 <= i < |waits| :: waits[i] == 0
    ensures Total(waits) == 0
  {
    if waits != [] { TotalZero(waits[..|waits| - 1]); }
  }

  /** What can happen to a client, in any order: a call, an answer to a background wait, the end of one. */
  datatype Turn = Call(votes: seq<VoteReply>, certs: seq<CertReply>, aggregates: bool) | Late(i: nat) | End(i: nat)

  class Client {
    const committee: Committee
    const clients: nat

    // gauges
    var transactions: int
    var transactionRequests: int
    var certificates: int
    var certificateRequests: int

    // replies that each background wait is still owed
    var waits: seq<nat>

    constructor (committee: Committee, clients: nat)
      ensures this.committee == committee && this.clients == clients && waits == [] && Unaccounted() == 0
      ensures transactions == transactionRequests == certificates == 0
    {
      this.committee, this.clients := committee, clients;
      transactions, transactionRequests, certificates, certificateRequests := 0, 0, 0, 0;
      waits := [];
    }

    /** Certificate requests the gauge shows that no background wait will take back. */
    function Unaccounted(): int
      reads this
    {
      certificateRequests - Total(waits)
    }

    /** The vote loop, with the gauge as it stands when the loop is left. */
    method VoteRound(votes: seq<VoteReply>) returns (k: nat, found: Option<nat>, epoch: nat, signers: set<Authority>)
      requires |votes| == clients
      modifies this`transactionRequests
      ensures VotesRead(committee, votes, k)
      ensures found == Found(votes[..k]) && epoch == Epoch(votes[..k]) && signers == Signers(votes[..k])
      ensures transactionRequests == old(transactionRequests) + clients - k
    {
      transactionRequests := transactionRequests + clients;
      var stake := 0;
      k, found, epoch, signers := 0, None, 0, {};
      assert votes[..0] == [];
      hide VoteStake, Found, Epoch, Signers;
      while k < |votes|
        invariant k <= |votes|
        invariant stake == VoteStake(committee, votes[..k])
        invariant found == Found(votes[..k]) && epoch == Epoch(votes[..k]) && signers == Signers(votes[..k])
        invariant forall j | 0 < j <= k :: !VotesSuffice(committee, votes[..j])
        invariant transactionRequests == old(transactionRequests) + clients - k
      {
        transactionRequests := transactionRequests - 1;
        var reply := votes[k];
        OneMoreVote(committee, votes, k);
        match reply {
          case Signed(authority, e) =>
            epoch := e;
            stake := stake + committee.Weight(authority);
            signers := signers + {authority};
          case Executed(certificate) =>
            if certificate.Some? {
              found := certificate;
            }
          case Refused =>
        }
        k := k + 1;
        if stake >= committee.quorum || found.Some? {
          break;
        }
      }
    }

    /** The certificate loop, with the gauge as it stands when the loop is left. */
    method CertRound(certs: seq<CertReply>) returns (k: nat, enough: bool, data: nat, events: nat)
      requires |certs| == clients
      modifies this`certificateRequests
      ensures CertsRead(committee, certs, k)
      ensures enough <==> EnoughEffects(committee, certs)
      ensures committee.quorum > 0 ==>
                (enough <==>
                   Tally(committee.weights, multiset(EffectAuthors(certs)), committee.weights.Keys) >= committee.quorum)
      ensures enough ==> k > 0 && certs[k - 1].Effects? && data == certs[k - 1].data && events == certs[k - 1].events
      ensures certificateRequests == old(certificateRequests) + clients - k
    {
      certificateRequests := certificateRequests + clients;
      var stake, any := 0, false;
      k, data, events := 0, 0, 0;
      CertsStart(committee, certs);
      hide EffectStake, EffectAuthors, Tally, NotYet, AnyEffects, CertsRead;
      while k < |certs|
        invariant k <= |certs|
        invariant stake == EffectStake(committee, certs[..k])
        invariant any <==> AnyEffects(certs, k)
        invariant k > 0 && certs[k - 1].Effects? ==> data == certs[k - 1].data && events == certs[k - 1].events
        invariant NotYet(committee, certs, k) && (k == 0 || stake < committee.quorum)
        invariant certificateRequests == old(certificateRequests) + clients - k
      {
        certificateRequests := certificateRequests - 1;
        CertsStep(committee, certs, k);
        match certs[k] {
          case Effects(author, d, e) =>
            any, data, events := true, d, e;
            stake := stake + committee.Weight(author);
          case Rejected =>
        }
        k := k + 1;
        if stake >= committee.quorum {
          break;
        }
      }
      CertsDone(committee, certs, k);
      StopDecides(committee, certs, k);
      EffectStakeExactly(committee, certs);
      enough := any && stake >= committee.quorum;
    }

    /** `execute_bench_transaction`. On every run that does not panic the transaction gauges are back where they were
        and every certificate request is either answered or owed to a background wait, but for the leak of a zero
        quorum. */
    method ExecuteBench(votes: seq<VoteReply>, certs: seq<CertReply>, aggregates: bool)
        returns (r: Outcome, ghost read: nat)
      requires |votes| == |certs| == clients
      modifies this
      ensures VotesRead(committee, votes, read)
      ensures r.Panicked? <==> CertificateFrom(committee, votes[..read], aggregates).None?
      ensures r.Done? <==> !r.Panicked? && EnoughEffects(committee, certs)
      ensures committee.quorum > 0 ==>
                (r.Done? <==>
                   && !r.Panicked?
                   && Tally(committee.weights, multiset(EffectAuthors(certs)), committee.weights.Keys)
                      >= committee.quorum)
      ensures r.Done? ==> CertificateFrom(committee, votes[..read], aggregates) == Some(r.certificate)
      ensures r.Done? ==> exists k :: 0 < k <= |certs| && CertsRead(committee, certs, k) && certs[k - 1].Effects?
                                  && r.data == certs[k - 1].data && r.events == certs[k - 1].events
      ensures transactions == old(transactions) && certificates == old(certificates)
      ensures transactionRequests == old(transactionRequests) + if r.Panicked? then clients - read else 0
      ensures Unaccounted() == old(Unaccounted()) + if r.Panicked? then 0 else Leak(committee, certs)
    {
      hide VoteStake, VotesSuffice, Found, Epoch, Signers, EffectStake, EffectAuthors, Tally, Total;
      transactions := transactions + 1;
      var k, found, epoch, signers := VoteRound(votes);
      read := k;
      var certificate;
      if found.Some? {
        certificate := Existing(found.value);
      } else if signers <= committee.weights.Keys && aggregates {
        certificate := Assembled(epoch, signers);
      } else {
        transactions := transactions - 1;
        return Panicked, read;
      }
      transactionRequests := transactionRequests - (|votes| - k);
      transactions := transactions - 1;
      certificates := certificates + 1;
      var j, enough, data, events := CertRound(certs);
      StopDecides(committee, certs, j);
      if enough {
        TotalAppend(waits, |certs| - j);
        waits := waits + [|certs| - j];
        r := Done(certificate, data, events);
      } else {
        r := Bailed;
      }
      certificates := certificates - 1;
    }

    /** A straggler answers a background wait in time. */
    method LateReply(i: nat)
      requires i < |waits| && waits[i] > 0
      modifies this`certificateRequests, this`waits
      ensures Unaccounted() == old(Unaccounted())
      ensures waits == old(waits)[i := old(waits)[i] - 1]
    {
      certificateRequests := certificateRequests - 1;
      TotalUpdate(waits, i, waits[i] - 1);
      waits := waits[i := waits[i] - 1];
    }

    /** A background wait ends, answered in full or by its timeout: what it is still owed leaves the gauge. */
    method EndWait(i: nat)
      requires i < |waits|
      modifies this`certificateRequests, this`waits
      ensures Unaccounted() == old(Unaccounted())
      ensures waits == old(waits)[i := 0]
    {
      certificateRequests := certificateRequests - waits[i];
      TotalUpdate(waits, i, 0);
      waits := waits[i := 0];
    }

    /** Every run: with a positive quorum and no panic, all four gauges are back where they started once every
        background wait is over. A step that is not possible is skipped. */
    method Run(steps: seq<Turn>) returns (panicked: bool)
      requires waits == []
      modifies this
      ensures transactions == old(transactions) && certificates == old(certificates)
      ensures !panicked ==> transactionRequests == old(transactionRequests)
      ensures committee.quorum > 0 && (forall i | 0 <= i < |waits| :: waits[i] == 0) ==>
                certificateRequests == old(certificateRequests)
    {
      panicked := false;
      for n := 0 to |steps|
        invariant transactions == old(transactions) && certificates == old(certificates)
        invariant !panicked ==> transactionRequests == old(transactionRequests)
        invariant committee.quorum > 0 ==> Unaccounted() == old(Unaccounted())
      {
        match steps[n] {
          case Call(votes, certs, aggregates) =>
            if |votes| == clients && |certs| == clients {
              var r, read := ExecuteBench(votes, certs, aggregates);
              panicked := panicked || r.Panicked?;
            }
          case Late(i) =>
            if i < |waits| && waits[i] > 0 {
              LateReply(i);
            }
          case End(i) =>
            if i < |waits| {
              EndWait(i);
            }
        }
      }
      if forall i | 0 <= i < |waits| :: waits[i] == 0 {
        TotalZero(waits);
      }
    }
  }
}
