/** One-shot approval tokens: gates/human_approval.py. */
module HumanApproval {
  import opened Common

  datatype Decision = Approve | Reject | RequestChanges | Timeout | Pending

  datatype Token = Token(
    tokenId: string, pipelineExecutionId: string, contractVersion: string, createdAt: real, expiresAt: real,
    used: bool, decision: Decision, reason: Option<string>, decidedAt: Option<real>)

  datatype Refusal = NotFound | AlreadyUsed | Expired

  datatype AuditedDecision = Recorded(decision: Decision) | Refused(why: Refusal)

  datatype AuditEntry = AuditEntry(tokenId: string, timestamp: real, ip: string, decision: AuditedDecision,
                                   reason: Option<string>)

  datatype Workflow = Workflow(tokens: map<string, Token>, audit: seq<AuditEntry>)

  const EMPTY := Workflow(map[], [])

  const EXPIRY_REASON := "Automatic rejection: token expired"

  /** A call with the values of the clock at each of its reads, in the order of reading. */
  datatype Call =
    | Generate(hex: string, tokenId: string, pipelineExecutionId: string, contractVersion: string, now: real)
    | Process(hex: string, decision: Decision, reason: Option<string>, ip: string,
              validated: real, decided: real, audited: real)
    | CheckTimeout(hex: string, checked: real, decided: real, audited: real)
    | GetDecision(hex: string, looked: real, checked: real, decided: real, audited: real)

  predicate IsExpired(t: Token, now: real) {
    now > t.expiresAt
  }

  /** Why `validate_token` refuses, if it does. */
  function Refuses(w: Workflow, hex: string, now: real): Option<Refusal> {
    if hex !in w.tokens then Some(NotFound)
    else if w.tokens[hex].used then Some(AlreadyUsed)
    else if IsExpired(w.tokens[hex], now) then Some(Expired)
    else None
  }

  function GenerateToken(w: Workflow, c: Call, timeout: real): Workflow
    requires c.Generate?
  {
    var token := Token(c.tokenId, c.pipelineExecutionId, c.contractVersion, c.now, c.now + timeout,
                       false, Pending, None, None);
    w.(tokens := w.tokens[c.hex := token])
  }

  function ProcessDecision(w: Workflow, c: Call): Workflow
    requires c.Process?
  {
    match Refuses(w, c.hex, c.validated)
    case Some(why) =>
      var tokenId := if c.hex in w.tokens then w.tokens[c.hex].tokenId else "unknown";
      w.(audit := w.audit + [AuditEntry(tokenId, c.audited, c.ip, Refused(why), c.reason)])
    case None =>
      var token := w.tokens[c.hex].(used := true, decision := c.decision, reason := c.reason,
                                    decidedAt := Some(c.decided));
      Workflow(w.tokens[c.hex := token],
               w.audit + [AuditEntry(token.tokenId, c.audited, c.ip, Recorded(c.decision), c.reason)])
  }

  predicate TimesOut(w: Workflow, hex: string, now: real) {
    hex in w.tokens && !w.tokens[hex].used && IsExpired(w.tokens[hex], now)
  }

  function TimeOutToken(w: Workflow, hex: string, checked: real, decided: real, audited: real): Workflow {
    if TimesOut(w, hex, checked) then
      var token := w.tokens[hex].(used := true, decision := Timeout, reason := Some(EXPIRY_REASON),
                                  decidedAt := Some(decided));
      Workflow(w.tokens[hex := token],
               w.audit + [AuditEntry(token.tokenId, audited, "system", Recorded(Timeout), Some(EXPIRY_REASON))])
    else w
  }

  function Perform(w: Workflow, c: Call, timeout: real): Workflow {
    match c
    case Generate(_, _, _, _, _) => GenerateToken(w, c, timeout)
    case Process(_, _, _, _, _, _, _) => ProcessDecision(w, c)
    case CheckTimeout(hex, checked, decided, audited) => TimeOutToken(w, hex, checked, decided, audited)
    case GetDecision(hex, looked, checked, decided, audited) =>
      if TimesOut(w, hex, looked) then TimeOutToken(w, hex, checked, decided, audited) else w
  }

  function FirstRead(c: Call): real {
    match c
    case Generate(_, _, _, _, now) => now
    case Process(_, _, _, _, validated, _, _) => validated
    case CheckTimeout(_, checked, _, _) => checked
    case GetDecision(_, looked, _, _, _) => looked
  }

  function LastRead(c: Call): real {
    match c
    case Generate(_, _, _, _, now) => now
    case Process(_, _, _, _, _, _, audited) => audited
    case CheckTimeout(_, _, _, audited) => audited
    case GetDecision(_, _, _, _, audited) => audited
  }

  predicate ReadsForward(c: Call) {
    match c
    case Generate(_, _, _, _, _) => true
    case Process(_, _, _, _, validated, decided, audited) => validated <= decided <= audited
    case CheckTimeout(_, checked, decided, audited) => checked <= decided <= audited
    case GetDecision(_, looked, checked, decided, audited) => looked <= checked <= decided <= audited
  }

  /** A nondecreasing clock and fresh tokens; any decision value may be submitted, as the code refuses none. */
  predicate IsRun(w: Workflow, clock: real, calls: seq<Call>, timeout: real)
    decreases |calls|
  {
    calls == [] || (
      && clock <= FirstRead(calls[0]) && ReadsForward(calls[0])
      && (calls[0].Generate? ==> calls[0].hex !in w.tokens)
      && IsRun(Perform(w, calls[0], timeout), LastRead(calls[0]), calls[1..], timeout))
  }

  function After(w: Workflow, calls: seq<Call>, timeout: real): Workflow
    decreases |calls|
  {
    if calls == [] then w else After(Perform(w, calls[0], timeout), calls[1..], timeout)
  }

  // ---------------------------------------------------------------------------------------------
  // Single use
  // ---------------------------------------------------------------------------------------------

  predicate IsUsed(w: Workflow, hex: string) {
    hex in w.tokens && w.tokens[hex].used
  }

  /** The call turns the token from unused to used. */
  predicate Consumes(w: Workflow, c: Call, hex: string, timeout: real) {
    hex in w.tokens && !w.tokens[hex].used && IsUsed(Perform(w, c, timeout), hex)
  }

  function Consumptions(w: Workflow, calls: seq<Call>, hex: string, timeout: real): nat
    decreases |calls|
  {
    if calls == [] then 0
    else (if Consumes(w, calls[0], hex, timeout) then 1 else 0)
         + Consumptions(Perform(w, calls[0], timeout), calls[1..], hex, timeout)
  }

  /** A token is used iff it carries a decision, and its expiry is fixed by its creation. */
  predicate WellFormed(w: Workflow, timeout: real) {
    forall hex :: hex in w.tokens ==>
      && (w.tokens[hex].used <==> w.tokens[hex].decision != Pending)
      && w.tokens[hex].expiresAt == w.tokens[hex].createdAt + timeout
  }

  /** Holds in every run, whatever decisions are submitted. */
  predicate UnusedArePending(w: Workflow) {
    forall hex :: hex in w.tokens && !w.tokens[hex].used ==> w.tokens[hex].decision == Pending
  }

  /** A used token is frozen: no later call changes anything in it. */
  lemma {:induction false} UsedTokenIsFrozen(w: Workflow, clock: real, calls: seq<Call>, timeout: real, hex: string)
    requires IsRun(w, clock, calls, timeout) && IsUsed(w, hex)
    ensures var w' := After(w, calls, timeout); hex in w'.tokens && w'.tokens[hex] == w.tokens[hex]
    ensures Consumptions(w, calls, hex, timeout) == 0
    decreases |calls|
  {
    if calls != [] {
      UsedTokenIsFrozen(Perform(w, calls[0], timeout), LastRead(calls[0]), calls[1..], timeout, hex);
    }
  }

  /** Over every run a token is consumed once if it ends up used and never otherwise. */
  lemma {:induction false} ConsumedAtMostOnce(w: Workflow, clock: real, calls: seq<Call>, timeout: real, hex: string)
    requires IsRun(w, clock, calls, timeout) && !IsUsed(w, hex)
    ensures Consumptions(w, calls, hex, timeout) == if IsUsed(After(w, calls, timeout), hex) then 1 else 0
    decreases |calls|
  {
    if calls != [] {
      var w' := Perform(w, calls[0], timeout);
      if IsUsed(w', hex) {
        assert hex in w.tokens;
        UsedTokenIsFrozen(w', LastRead(calls[0]), calls[1..], timeout, hex);
      } else {
        ConsumedAtMostOnce(w', LastRead(calls[0]), calls[1..], timeout, hex);
      }
    }
  }

  // ---------------------------------------------------------------------------------------------
  // What a token is from its creation on
  // ---------------------------------------------------------------------------------------------

  /** No call touches the ids and times of a known token, and none changes a token without consuming it. */
  lemma {:induction false} TokenIdentityIsKept(w: Workflow, clock: real, calls: seq<Call>, timeout: real, hex: string)
    requires IsRun(w, clock, calls, timeout) && hex in w.tokens
    ensures var w' := After(w, calls, timeout);
            && hex in w'.tokens
            && w'.tokens[hex].tokenId == w.tokens[hex].tokenId
            && w'.tokens[hex].pipelineExecutionId == w.tokens[hex].pipelineExecutionId
            && w'.tokens[hex].contractVersion == w.tokens[hex].contractVersion
            && w'.tokens[hex].createdAt == w.tokens[hex].createdAt
            && w'.tokens[hex].expiresAt == w.tokens[hex].expiresAt
            && (!w'.tokens[hex].used ==> w'.tokens[hex] == w.tokens[hex])
    decreases |calls|
  {
    if calls != [] {
      TokenIdentityIsKept(Perform(w, calls[0], timeout), LastRead(calls[0]), calls[1..], timeout, hex);
      if w.tokens[hex].used {
        UsedTokenIsFrozen(w, clock, calls, timeout, hex);
      }
    }
  }

  /**
   * Over every run, a token generated at a time and not consumed since is accepted up to one timeout later and never
   * after, when a check times it out. Consumed or not, it stays the token of its pipeline execution and contract.
   */
  lemma GeneratedTokenLives(w: Workflow, hex: string, tokenId: string, pipelineExecutionId: string,
                            contractVersion: string, now: real, calls: seq<Call>, timeout: real, later: real)
    requires hex !in w.tokens
    requires var generated := Perform(w, Generate(hex, tokenId, pipelineExecutionId, contractVersion, now), timeout);
             IsRun(generated, now, calls, timeout)
    ensures var generated := Perform(w, Generate(hex, tokenId, pipelineExecutionId, contractVersion, now), timeout);
            var w' := After(generated, calls, timeout);
            && hex in w'.tokens
            && w'.tokens[hex].tokenId == tokenId
            && w'.tokens[hex].pipelineExecutionId == pipelineExecutionId
            && w'.tokens[hex].contractVersion == contractVersion
            && w'.tokens[hex].createdAt == now
            && (!w'.tokens[hex].used ==>
                 && w'.tokens[hex].decision == Pending && w'.tokens[hex].decidedAt == None
                 && (Refuses(w', hex, later) == None <==> later <= now + timeout)
                 && (Refuses(w', hex, later) == Some(Expired) <==> later > now + timeout)
                 && (TimesOut(w', hex, later) <==> later > now + timeout))
  {
    var generated := Perform(w, Generate(hex, tokenId, pipelineExecutionId, contractVersion, now), timeout);
    TokenIdentityIsKept(generated, now, calls, timeout, hex);
  }

  // ---------------------------------------------------------------------------------------------
  // Decisions and expiry
  // ---------------------------------------------------------------------------------------------

  /** The call is the one whose clock read justifies the token's decision. */
  predicate Justifies(c: Call, hex: string, t: Token) {
    match c
    case Generate(_, _, _, _, _) => false
    case Process(h, decision, reason, _, validated, decided, _) =>
      && h == hex && t.decision == decision && t.reason == reason
      && validated <= t.expiresAt && t.decidedAt == Some(decided)
    case CheckTimeout(h, checked, decided, _) =>
      h == hex && t.decision == Timeout && checked > t.expiresAt && t.decidedAt == Some(decided)
    case GetDecision(h, _, checked, decided, _) =>
      h == hex && t.decision == Timeout && checked > t.expiresAt && t.decidedAt == Some(decided)
  }

  lemma ConsumptionJustifies(w: Workflow, c: Call, hex: string, timeout: real)
    requires Consumes(w, c, hex, timeout)
    ensures Justifies(c, hex, Perform(w, c, timeout).tokens[hex])
  {
  }

  /**
   * Every decision in the final state comes from the one call of the run that consumed the token: a submitted one
   * from a submission whose validating read was no later than expiry, otherwise TIMEOUT from a check that read the
   * clock after it.
   */
  lemma {:induction false} DecisionHasCause(w: Workflow, clock: real, calls: seq<Call>, timeout: real, hex: string)
    returns (k: nat)
    requires IsRun(w, clock, calls, timeout) && !IsUsed(w, hex) && IsUsed(After(w, calls, timeout), hex)
    ensures k < |calls| && Consumes(After(w, calls[..k], timeout), calls[k], hex, timeout)
    ensures Justifies(calls[k], hex, After(w, calls, timeout).tokens[hex])
    ensures After(w, calls, timeout).tokens[hex].decision == if calls[k].Process? then calls[k].decision else Timeout
    decreases |calls|
  {
    var w' := Perform(w, calls[0], timeout);
    if IsUsed(w', hex) {
      ConsumptionJustifies(w, calls[0], hex, timeout);
      UsedTokenIsFrozen(w', LastRead(calls[0]), calls[1..], timeout, hex);
      k := 0;
      assert hex in w.tokens;
    } else {
      hide Justifies, Perform, Consumes;
      var k' := DecisionHasCause(w', LastRead(calls[0]), calls[1..], timeout, hex);
      k := k' + 1;
      assert calls[..k][1..] == calls[1..][..k'] && calls[..k] != [] && calls[..k][0] == calls[0];
    }
  }

  /**
   * When the recorded time of a submitted decision lies after expiry: exactly when the validating and the recording
   * read of the consuming submission straddle the expiry. It cannot when the submission ends by expiry.
   */
  lemma DecisionLateExactly(w: Workflow, clock: real, calls: seq<Call>, timeout: real, hex: string) returns (k: nat)
    requires IsRun(w, clock, calls, timeout) && !IsUsed(w, hex) && IsUsed(After(w, calls, timeout), hex)
    ensures k < |calls| && Consumes(After(w, calls[..k], timeout), calls[k], hex, timeout)
    ensures var token := After(w, calls, timeout).tokens[hex];
            && token.decidedAt.Some?
            && (calls[k].Process? ==>
                 && (token.decidedAt.value > token.expiresAt <==>
                      calls[k].validated <= token.expiresAt < calls[k].decided)
                 && (calls[k].audited <= token.expiresAt ==> token.decidedAt.value <= token.expiresAt))
            && (!calls[k].Process? ==> token.decidedAt.value > token.expiresAt)
  {
    k := DecisionHasCause(w, clock, calls, timeout, hex);
    ReadsAreOrdered(w, clock, calls, timeout, k);
  }

  lemma {:induction false} ReadsAreOrdered(w: Workflow, clock: real, calls: seq<Call>, timeout: real, k: nat)
    requires IsRun(w, clock, calls, timeout) && k < |calls|
    ensures ReadsForward(calls[k])
    decreases |calls|
  {
    if k > 0 {
      ReadsAreOrdered(Perform(w, calls[0], timeout), LastRead(calls[0]), calls[1..], timeout, k - 1);
    }
  }

  /** A token generated at time 0 and one submission for it, as a run. */
  lemma SubmittedRun(decision: Decision, timeout: real, decided: real) returns (calls: seq<Call>)
    requires 0.0 <= timeout && timeout <= decided
    ensures IsRun(EMPTY, 0.0, calls, timeout)
    ensures var w := After(EMPTY, calls, timeout);
            && "t" in w.tokens && w.tokens["t"].used && w.tokens["t"].decision == decision
            && w.tokens["t"].decidedAt == Some(decided) && w.tokens["t"].expiresAt == timeout
  {
    var generate := Generate("t", "id", "p", "c", 0.0);
    var submit := Process("t", decision, None, "ip", timeout, decided, decided);
    calls := [generate, submit];
    var w1 := Perform(EMPTY, generate, timeout);
    var w2 := Perform(w1, submit, timeout);
    assert calls[1..] == [submit] && [submit][1..] == [];
    assert After(w2, [], timeout) == w2;
    assert After(w1, [submit], timeout) == w2;
    assert IsRun(w2, decided, [], timeout);
    assert IsRun(w1, 0.0, [submit], timeout);
  }

  /** The straddling happens: a decision recorded one second after the expiry it was validated against. */
  lemma DecisionTimeMayBeLate(timeout: real) returns (calls: seq<Call>)
    requires timeout >= 0.0
    ensures IsRun(EMPTY, 0.0, calls, timeout)
    ensures var w := After(EMPTY, calls, timeout);
            && "t" in w.tokens && w.tokens["t"].decision == Approve
            && w.tokens["t"].decidedAt.Some? && w.tokens["t"].decidedAt.value > w.tokens["t"].expiresAt
  {
    calls := SubmittedRun(Approve, timeout, timeout + 1.0);
  }

  /**
   * When TIMEOUT is recorded although the token had not expired: exactly when it was itself submitted, and the
   * submission read its clock by expiry.
   */
  lemma EarlyTimeoutExactly(w: Workflow, clock: real, calls: seq<Call>, timeout: real, hex: string) returns (k: nat)
    requires IsRun(w, clock, calls, timeout) && !IsUsed(w, hex) && IsUsed(After(w, calls, timeout), hex)
    ensures k < |calls| && Consumes(After(w, calls[..k], timeout), calls[k], hex, timeout)
    ensures var token := After(w, calls, timeout).tokens[hex];
            && token.decidedAt.Some?
            && (token.decision == Timeout && token.decidedAt.value <= token.expiresAt <==>
                 calls[k].Process? && calls[k].decision == Timeout && calls[k].decided <= token.expiresAt)
  {
    k := DecisionHasCause(w, clock, calls, timeout, hex);
    ReadsAreOrdered(w, clock, calls, timeout, k);
  }

  /** It happens: a submitted TIMEOUT stands by expiry, and a submitted PENDING uses the token up undecided. */
  lemma OddDecisionsStand(timeout: real) returns (timedOut: seq<Call>, pending: seq<Call>)
    requires timeout >= 0.0
    ensures IsRun(EMPTY, 0.0, timedOut, timeout) && IsRun(EMPTY, 0.0, pending, timeout)
    ensures var w := After(EMPTY, timedOut, timeout);
            && "t" in w.tokens && w.tokens["t"].decision == Timeout
            && w.tokens["t"].decidedAt == Some(w.tokens["t"].expiresAt)
    ensures IsUsedPending(After(EMPTY, pending, timeout), "t")
  {
    timedOut := SubmittedRun(Timeout, timeout, timeout);
    pending := SubmittedRun(Pending, timeout, timeout);
  }

  /** The call consumes a token with the decision PENDING. */
  predicate TakesPending(w: Workflow, c: Call) {
    c.Process? && c.decision == Pending && Refuses(w, c.hex, c.validated) == None
  }

  predicate NeverTakesPending(w: Workflow, calls: seq<Call>, timeout: real)
    decreases |calls|
  {
    calls == [] || (!TakesPending(w, calls[0]) && NeverTakesPending(Perform(w, calls[0], timeout), calls[1..], timeout))
  }

  lemma StartIsWellFormed(timeout: real)
    ensures WellFormed(EMPTY, timeout) && UnusedArePending(EMPTY) && |UsedTokens(EMPTY)| == Accepted(EMPTY.audit)
  {
  }

  lemma PerformKeeps(w: Workflow, c: Call, timeout: real)
    requires WellFormed(w, timeout)
    ensures if TakesPending(w, c) then IsUsedPending(Perform(w, c, timeout), c.hex)
            else WellFormed(Perform(w, c, timeout), timeout)
  {
  }

  predicate IsUsedPending(w: Workflow, hex: string) {
    IsUsed(w, hex) && w.tokens[hex].decision == Pending
  }

  /**
   * Over every run, used tokens stay the decided ones iff no submission of PENDING is accepted; the code does not
   * refuse it.
   */
  lemma {:induction false} RunKeepsWellFormed(w: Workflow, clock: real, calls: seq<Call>, timeout: real)
    requires IsRun(w, clock, calls, timeout) && WellFormed(w, timeout)
    ensures WellFormed(After(w, calls, timeout), timeout) <==> NeverTakesPending(w, calls, timeout)
    decreases |calls|
  {
    if calls != [] {
      PerformKeeps(w, calls[0], timeout);
      var w' := Perform(w, calls[0], timeout);
      if TakesPending(w, calls[0]) {
        UsedTokenIsFrozen(w', LastRead(calls[0]), calls[1..], timeout, calls[0].hex);
      } else {
        hide Perform, WellFormed;
        RunKeepsWellFormed(w', LastRead(calls[0]), calls[1..], timeout);
      }
    }
  }

  // ---------------------------------------------------------------------------------------------
  // Audit
  // ---------------------------------------------------------------------------------------------

  /** Whether the call must leave a trace: every submission, and every check that times a token out. */
  predicate IsAudited(w: Workflow, c: Call) {
    match c
    case Generate(_, _, _, _, _) => false
    case Process(_, _, _, _, _, _, _) => true
    case CheckTimeout(hex, checked, _, _) => TimesOut(w, hex, checked)
    case GetDecision(hex, looked, checked, _, _) => TimesOut(w, hex, looked) && TimesOut(w, hex, checked)
  }

  /** The entry the call must leave. */
  function EntryOf(w: Workflow, c: Call): AuditEntry
    requires IsAudited(w, c)
  {
    match c
    case Process(hex, decision, reason, ip, validated, _, audited) =>
      AuditEntry(if hex in w.tokens then w.tokens[hex].tokenId else "unknown", audited, ip,
                 if Refuses(w, hex, validated).Some? then Refused(Refuses(w, hex, validated).value)
                 else Recorded(decision), reason)
    case CheckTimeout(hex, _, _, audited) =>
      AuditEntry(w.tokens[hex].tokenId, audited, "system", Recorded(Timeout), Some(EXPIRY_REASON))
    case GetDecision(hex, _, _, _, audited) =>
      AuditEntry(w.tokens[hex].tokenId, audited, "system", Recorded(Timeout), Some(EXPIRY_REASON))
  }

  function ExpectedAudit(w: Workflow, calls: seq<Call>, timeout: real): seq<AuditEntry>
    decreases |calls|
  {
    if calls == [] then []
    else (if IsAudited(w, calls[0]) then [EntryOf(w, calls[0])] else [])
         + ExpectedAudit(Perform(w, calls[0], timeout), calls[1..], timeout)
  }

  /** The log only grows, by exactly one entry per submission and one per timeout, in order. */
  lemma {:induction false} AuditIsComplete(w: Workflow, clock: real, calls: seq<Call>, timeout: real)
    requires IsRun(w, clock, calls, timeout)
    ensures After(w, calls, timeout).audit == w.audit + ExpectedAudit(w, calls, timeout)
    decreases |calls|
  {
    if calls != [] {
      var w' := Perform(w, calls[0], timeout);
      AuditAfter(w, calls[0], timeout);
      hide Perform, IsAudited, EntryOf;
      AuditIsComplete(w', LastRead(calls[0]), calls[1..], timeout);
    }
  }

  /** Entries that accept a decision are as many as the tokens consumed. */
  function Accepted(entries: seq<AuditEntry>): nat {
    Count(entries, (e: AuditEntry) => e.decision.Recorded?)
  }

  function UsedTokens(w: Workflow): set<string> {
    set hex | hex in w.tokens && w.tokens[hex].used
  }

  lemma AcceptedAppend(entries: seq<AuditEntry>, e: AuditEntry)
    ensures Accepted(entries + [e]) == Accepted(entries) + if e.decision.Recorded? then 1 else 0
  {
    CountAppend(entries, [e], (x: AuditEntry) => x.decision.Recorded?);
  }

  lemma UsedAfter(w: Workflow, c: Call, timeout: real)
    requires c.Generate? ==> c.hex !in w.tokens
    ensures UsedTokens(Perform(w, c, timeout)) ==
      UsedTokens(w) + if IsAudited(w, c) && EntryOf(w, c).decision.Recorded? then {c.hex} else {}
    ensures IsAudited(w, c) && EntryOf(w, c).decision.Recorded? ==> c.hex !in UsedTokens(w)
  {
  }

  lemma AuditAfter(w: Workflow, c: Call, timeout: real)
    ensures Perform(w, c, timeout).audit == w.audit + if IsAudited(w, c) then [EntryOf(w, c)] else []
  {
  }

  lemma PerformAccepts(w: Workflow, c: Call, timeout: real)
    requires c.Generate? ==> c.hex !in w.tokens
    requires |UsedTokens(w)| == Accepted(w.audit)
    ensures |UsedTokens(Perform(w, c, timeout))| == Accepted(Perform(w, c, timeout).audit)
  {
    UsedAfter(w, c, timeout);
    AuditAfter(w, c, timeout);
    hide Perform, UsedTokens, Accepted, IsAudited, EntryOf;
    if IsAudited(w, c) {
      AcceptedAppend(w.audit, EntryOf(w, c));
    } else {
      assert w.audit + [] == w.audit;
    }
  }

  /** Over every run the log accepts exactly as many decisions as there are used tokens. */
  lemma {:induction false} AuditMatchesTokens(w: Workflow, clock: real, calls: seq<Call>, timeout: real)
    requires IsRun(w, clock, calls, timeout) && |UsedTokens(w)| == Accepted(w.audit)
    ensures |UsedTokens(After(w, calls, timeout))| == Accepted(After(w, calls, timeout).audit)
    decreases |calls|
  {
    if calls != [] {
      PerformAccepts(w, calls[0], timeout);
      hide Perform, UsedTokens, Accepted;
      AuditMatchesTokens(Perform(w, calls[0], timeout), LastRead(calls[0]), calls[1..], timeout);
    }
  }

  function Submissions(calls: seq<Call>): nat {
    Count(calls, (c: Call) => c.Process?)
  }

  function TimedOut(w: Workflow): set<string> {
    set hex | hex in w.tokens && w.tokens[hex].decision == Timeout
  }

  /** The call consumes a token with a submitted TIMEOUT. */
  predicate TakesTimeout(w: Workflow, c: Call) {
    c.Process? && c.decision == Timeout && Refuses(w, c.hex, c.validated) == None
  }

  function SubmittedTimeouts(w: Workflow, calls: seq<Call>, timeout: real): nat
    decreases |calls|
  {
    if calls == [] then 0
    else (if TakesTimeout(w, calls[0]) then 1 else 0)
         + SubmittedTimeouts(Perform(w, calls[0], timeout), calls[1..], timeout)
  }

  lemma TimedOutAfter(w: Workflow, c: Call, timeout: real)
    requires UnusedArePending(w) && (c.Generate? ==> c.hex !in w.tokens)
    ensures UnusedArePending(Perform(w, c, timeout))
    ensures var more := (IsAudited(w, c) && !c.Process?) || TakesTimeout(w, c);
            && TimedOut(Perform(w, c, timeout)) == TimedOut(w) + (if more then {c.hex} else {})
            && (more ==> c.hex !in TimedOut(w))
  {
  }

  lemma {:induction false} AuditGrowth(w: Workflow, clock: real, calls: seq<Call>, timeout: real)
    requires IsRun(w, clock, calls, timeout) && UnusedArePending(w)
    ensures var w' := After(w, calls, timeout);
            |w'.audit| + |TimedOut(w)| + SubmittedTimeouts(w, calls, timeout)
            == |w.audit| + |TimedOut(w')| + Submissions(calls)
    decreases |calls|
  {
    if calls != [] {
      TimedOutAfter(w, calls[0], timeout);
      AuditAfter(w, calls[0], timeout);
      assert TakesTimeout(w, calls[0]) ==> calls[0].Process?;
      hide Perform, TimedOut, UnusedArePending, IsAudited, EntryOf, TakesTimeout;
      AuditGrowth(Perform(w, calls[0], timeout), LastRead(calls[0]), calls[1..], timeout);
    }
  }

  /**
   * Over every run from the start, the log has one entry per submission and one per token that timed out, not
   * counting twice a TIMEOUT that was itself submitted.
   */
  lemma AuditSize(clock: real, calls: seq<Call>, timeout: real)
    requires IsRun(EMPTY, clock, calls, timeout)
    ensures var w := After(EMPTY, calls, timeout);
            var timedOut := set hex | hex in w.tokens && w.tokens[hex].decision == Timeout;
            |w.audit| == Submissions(calls) + |timedOut| - SubmittedTimeouts(EMPTY, calls, timeout)
  {
    AuditGrowth(EMPTY, clock, calls, timeout);
    assert TimedOut(EMPTY) == {};
  }

  // ---------------------------------------------------------------------------------------------
  // The workflow
  // ---------------------------------------------------------------------------------------------

  /** What a reader of the decision is told at a given time. */
  function DecisionAt(t: Token, looked: real): Decision {
    if t.used then t.decision else if looked > t.expiresAt then Timeout else Pending
  }

  class HumanApprovalWorkflow {
    const timeout: real
    var tokens: map<string, Token>
    var audit: seq<AuditEntry>

    ghost function Model(): Workflow
      reads this
    {
      Workflow(tokens, audit)
    }

    ghost predicate Valid()
      reads this
    {
      UnusedArePending(Model())
    }

    constructor (timeout: real)
      ensures Valid() && Model() == EMPTY && this.timeout == timeout
    {
      this.timeout, tokens, audit := timeout, map[], [];
    }

    method GenerateApproval(
      hex: string, tokenId: string, pipelineExecutionId: string, contractVersion: string, now: real)
      requires Valid() && hex !in tokens
      modifies `tokens
      ensures Valid() && Model() == Perform(old(Model()),
        Generate(hex, tokenId, pipelineExecutionId, contractVersion, now), timeout)
      ensures hex in tokens && tokens == old(tokens)[hex := tokens[hex]]
      ensures tokens[hex].tokenId == tokenId && tokens[hex].pipelineExecutionId == pipelineExecutionId
      ensures tokens[hex].contractVersion == contractVersion
      ensures tokens[hex].createdAt == now && tokens[hex].expiresAt == now + timeout
      ensures !tokens[hex].used && tokens[hex].decision == Pending
    {
      tokens := tokens[hex := Token(tokenId, pipelineExecutionId, contractVersion, now, now + timeout,
                                    false, Pending, None, None)];
    }

    method ValidateToken(hex: string, now: real) returns (refusal: Option<Refusal>)
      ensures refusal == Refuses(Workflow(tokens, audit), hex, now)
      ensures refusal == None <==> hex in tokens && !tokens[hex].used && now <= tokens[hex].expiresAt
    {
      if hex !in tokens {
        return Some(NotFound);
      }
      if tokens[hex].used {
        return Some(AlreadyUsed);
      }
      if now > tokens[hex].expiresAt {
        return Some(Expired);
      }
      return None;
    }

    method RecordAudit(tokenId: string, timestamp: real, ip: string, decision: AuditedDecision, reason: Option<string>)
      modifies `audit
      ensures audit == old(audit) + [AuditEntry(tokenId, timestamp, ip, decision, reason)]
    {
      audit := audit + [AuditEntry(tokenId, timestamp, ip, decision, reason)];
    }

    method SubmitDecision(hex: string, decision: Decision, reason: Option<string>, ip: string,
                          validated: real, decided: real, audited: real) returns (refusal: Option<Refusal>)
      requires Valid()
      modifies this
      ensures Valid()
      ensures Model() == Perform(old(Model()), Process(hex, decision, reason, ip, validated, decided, audited), timeout)
      ensures refusal == Refuses(old(Model()), hex, validated)
      ensures refusal == None ==>
        && hex in old(tokens)
        && tokens == old(tokens)[hex := old(tokens)[hex].(used := true, decision := decision, reason := reason,
                                                          decidedAt := Some(decided))]
        && audit == old(audit) + [AuditEntry(old(tokens)[hex].tokenId, audited, ip, Recorded(decision), reason)]
      ensures refusal.Some? ==>
        && tokens == old(tokens)
        && audit == old(audit) + [AuditEntry(if hex in old(tokens) then old(tokens)[hex].tokenId else "unknown",
                                             audited, ip, Refused(refusal.value), reason)]
      ensures refusal == None ==>
        Consumes(old(Model()), Process(hex, decision, reason, ip, validated, decided, audited), hex, timeout)
    {
      refusal := ValidateToken(hex, validated);
      if refusal.Some? {
        var tokenId := if hex in tokens then tokens[hex].tokenId else "unknown";
        RecordAudit(tokenId, audited, ip, Refused(refusal.value), reason);
        return;
      }
      var token := tokens[hex].(used := true, decision := decision, reason := reason, decidedAt := Some(decided));
      tokens := tokens[hex := token];
      RecordAudit(token.tokenId, audited, ip, Recorded(decision), reason);
    }

    method CheckForTimeout(hex: string, checked: real, decided: real, audited: real) returns (timedOut: bool)
      requires Valid()
      modifies this
      ensures Valid() && Model() == Perform(old(Model()), CheckTimeout(hex, checked, decided, audited), timeout)
      ensures timedOut <==> hex in old(tokens) && !old(tokens)[hex].used && checked > old(tokens)[hex].expiresAt
      ensures !timedOut ==> tokens == old(tokens) && audit == old(audit)
      ensures timedOut ==>
        var why := Some("Automatic rejection: token expired");
        && tokens == old(tokens)[hex := old(tokens)[hex].(used := true, decision := Timeout, reason := why,
                                                          decidedAt := Some(decided))]
        && audit == old(audit) + [AuditEntry(old(tokens)[hex].tokenId, audited, "system", Recorded(Timeout), why)]
      ensures timedOut <==> Consumes(old(Model()), CheckTimeout(hex, checked, decided, audited), hex, timeout)
    {
      if hex !in tokens {
        return false;
      }
      var token := tokens[hex];
      if token.used {
        return false;
      }
      if checked > token.expiresAt {
        tokens := tokens[hex := token.(used := true, decision := Timeout, reason := Some(EXPIRY_REASON),
                                       decidedAt := Some(decided))];
        RecordAudit(token.tokenId, audited, "system", Recorded(Timeout), Some(EXPIRY_REASON));
        return true;
      }
      return false;
    }

    /** The decision after a possible timeout; an unexpired unused token answers PENDING. */
    method GetDecisionOf(hex: string, looked: real, checked: real, decided: real, audited: real)
      returns (decision: Option<Decision>)
      requires Valid() && looked <= checked
      modifies this
      ensures Valid() && Model() == Perform(old(Model()), GetDecision(hex, looked, checked, decided, audited), timeout)
      ensures decision == None <==> hex !in old(tokens)
      ensures decision.Some? ==> decision.value == DecisionAt(old(tokens)[hex], looked)
      ensures decision.Some? && old(tokens)[hex].used ==> decision == Some(old(tokens)[hex].decision)
      ensures decision.Some? && !old(tokens)[hex].used ==>
        decision == Some(if looked > old(tokens)[hex].expiresAt then Timeout else Pending)
    {
      if hex !in tokens {
        return None;
      }
      if !tokens[hex].used && looked > tokens[hex].expiresAt {
        var timedOut := CheckForTimeout(hex, checked, decided, audited);
      }
      return Some(tokens[hex].decision);
    }
  }
}
