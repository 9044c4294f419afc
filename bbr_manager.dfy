/**
 * The primary backbone router's handling of a Multicast Listener
 * Registration request (MLR.req), of a Domain Unicast Address registration
 * (DUA.req) and of a proactive backbone notification (PRO_BB.ntf).
 *
 * The MLR handler validates the request, settles the registration timeout,
 * then walks the IPv6 Addresses TLV and sorts every address into one local
 * array: failed addresses are packed from the front, successful ones are
 * filled backwards from the end. The response carries the status and the
 * failed addresses; the successful ones are announced on the backbone.
 */
module BbrManager {
  import opened Common
  import opened Ip6Address

  /** Status codes of the Thread Status TLV in an MLR.rsp. */
  datatype MlrStatus =
    | MlrSuccess
    | MlrInvalid
    | MlrNoPersistent
    | MlrNoResources
    | MlrBbrNotPrimary
    | MlrGeneralFailure

  /** Size in bytes of one address in the IPv6 Addresses TLV. */
  const AddressSize: nat := 16

  /** The most addresses one IPv6 Addresses TLV may carry. */
  const MaxAddresses: nat := 15

  /** What the multicast listeners table answers when an address is added. */
  datatype AddOutcome = Added | AddInvalidArgs | AddNoBufs

  /**
   * The multicast listeners table as the handler sees it: its answers to the
   * successive additions made while handling one request.
   */
  type AddAnswers = seq<AddOutcome>

  /** The table's answer to the i-th addition; past the recorded answers the table is full. */
  function AnswerOf(add: AddAnswers, i: nat): AddOutcome
  {
    if i < |add| then add[i] else AddNoBufs
  }

  /** The parts of an MLR.req the handler reads. */
  datatype MlrRequest = MlrRequest(
    confirmablePost: bool,
    commissionerSessionId: Option<uint16>,
    timeoutTlv: Option<uint32>,
    addressesTlv: Option<seq<uint8>>)

  /** The backbone router and leader state the handler consults. */
  datatype MlrContext = MlrContext(
    isPrimary: bool,
    leaderSessionId: Option<uint16>,
    configMlrTimeout: uint32,
    maxMlrTimeout: uint32)

  /** The MLR.rsp: its status and the addresses that failed to register. */
  datatype MlrResponse = MlrResponse(status: MlrStatus, failed: seq<Address>)

  /** The BMLR.ntf sent on the backbone for the addresses that succeeded. */
  datatype BackboneRegistration = BackboneRegistration(addresses: seq<Address>, timeout: uint32)

  /** Everything one MLR.req leads to. */
  datatype MlrOutcome = MlrOutcome(
    error: Error,
    response: Option<MlrResponse>,
    backbone: Option<BackboneRegistration>)

  // ---------------------------------------------------------------------
  // Validation and timeout
  // ---------------------------------------------------------------------

  /** A Commissioner Session ID TLV, when present, must match the leader's. */
  predicate SessionAccepted(req: MlrRequest, ctx: MlrContext)
  {
    req.commissionerSessionId.None? || ctx.leaderSessionId == req.commissionerSessionId
  }

  /** The Timeout TLV is honoured only next to a Commissioner Session ID TLV. */
  function TimeoutToProcess(req: MlrRequest): Option<uint32>
  {
    if req.commissionerSessionId.Some? then req.timeoutTlv else None
  }

  /** A whole number of addresses, and no more than the TLV may carry. */
  predicate WellSizedPayload(payload: seq<uint8>)
  {
    |payload| % AddressSize == 0 && |payload| / AddressSize <= MaxAddresses
  }

  /**
   * The registration timeout in seconds, or None when the request asks for
   * a persistent registration (a timeout of UINT32_MAX).
   */
  function MlrTimeout(tlv: Option<uint32>, configTimeout: uint32, maxTimeout: uint32): (r: Option<uint32>)
    ensures tlv.None? ==> r == Some(configTimeout)
    ensures tlv.Some? ==> (r.None? <==> tlv.value == Uint32Max)
    ensures tlv.Some? && r.Some? && tlv.value == 0 ==> r.value == 0
    ensures tlv.Some? && r.Some? && tlv.value != 0 ==>
              r.value <= tlv.value && r.value <= maxTimeout &&
              (r.value == tlv.value || r.value == maxTimeout)
  {
    match tlv
    case None => Some(configTimeout)
    case Some(t) =>
      if t == Uint32Max then None
      else if t != 0 && maxTimeout < t then Some(maxTimeout)
      else Some(t)
  }

  /** The addresses of an IPv6 Addresses TLV, 16 bytes each; a short tail is not an address. */
  function Addresses(payload: seq<uint8>): (r: seq<Address>)
    ensures AddressSize * |r| <= |payload| < AddressSize * |r| + AddressSize
    decreases |payload|
  {
    if |payload| < AddressSize then [] else [payload[..AddressSize]] + Addresses(payload[AddressSize..])
  }

  /** The outcome of the checks made before any address is touched. */
  datatype Validation =
    | Reject(error: Error, status: MlrStatus)
    | Accept(addresses: seq<Address>, timeout: uint32)

  function ValidateMlr(req: MlrRequest, ctx: MlrContext): (v: Validation)
    ensures !req.confirmablePost ==> v == Reject(Parse, MlrSuccess)
    ensures req.confirmablePost && !ctx.isPrimary ==> v == Reject(NoError, MlrBbrNotPrimary)
    ensures req.confirmablePost && ctx.isPrimary && !SessionAccepted(req, ctx) ==>
              v == Reject(NoError, MlrGeneralFailure)
    ensures req.confirmablePost && ctx.isPrimary && SessionAccepted(req, ctx) &&
            req.addressesTlv.Some? && !WellSizedPayload(req.addressesTlv.value) ==>
              v == Reject(NoError, MlrGeneralFailure)
    ensures v.Reject? ==> (v.error == Parse <==> v.status == MlrSuccess)
    ensures v.Reject? && v.error != Parse ==> v.error == NoError
    ensures v.Accept? <==>
              req.confirmablePost && ctx.isPrimary && SessionAccepted(req, ctx) &&
              req.addressesTlv.Some? && WellSizedPayload(req.addressesTlv.value) &&
              MlrTimeout(TimeoutToProcess(req), ctx.configMlrTimeout, ctx.maxMlrTimeout).Some?
    ensures v.Accept? ==>
              |v.addresses| <= MaxAddresses &&
              v.addresses == Addresses(req.addressesTlv.value) &&
              Some(v.timeout) == MlrTimeout(TimeoutToProcess(req), ctx.configMlrTimeout, ctx.maxMlrTimeout)
  {
    if !req.confirmablePost then Reject(Parse, MlrSuccess)
    else if !ctx.isPrimary then Reject(NoError, MlrBbrNotPrimary)
    else if !SessionAccepted(req, ctx) then Reject(NoError, MlrGeneralFailure)
    else if req.addressesTlv.None? then Reject(Parse, MlrSuccess)
    else if !WellSizedPayload(req.addressesTlv.value) then Reject(NoError, MlrGeneralFailure)
    else
      match MlrTimeout(TimeoutToProcess(req), ctx.configMlrTimeout, ctx.maxMlrTimeout)
      case None => Reject(NoError, MlrNoPersistent)
      case Some(timeout) => Accept(Addresses(req.addressesTlv.value), timeout)
  }

  // ---------------------------------------------------------------------
  // Sorting the addresses into failed and succeeded
  // ---------------------------------------------------------------------

  /**
   * What dealing with each address comes to: a timeout of 0 removes it from
   * the table, which always succeeds; otherwise the table's answer to adding it.
   */
  function Answers(timeout: uint32, add: AddAnswers, addrs: seq<Address>): (r: seq<AddOutcome>)
    ensures |r| == |addrs|
  {
    seq(|addrs|, i requires 0 <= i < |addrs| => if timeout == 0 then Added else AnswerOf(add, i))
  }

  lemma AnswerAt(timeout: uint32, add: AddAnswers, addrs: seq<Address>, i: nat)
    requires i < |addrs|
    ensures Answers(timeout, add, addrs)[i] == if timeout == 0 then Added else AnswerOf(add, i)
  {}

  /** The status a failed addition reports. */
  function FailureStatus(outcome: AddOutcome): MlrStatus
  {
    match outcome
    case Added => MlrSuccess
    case AddInvalidArgs => MlrInvalid
    case AddNoBufs => MlrNoResources
  }

  /** The addresses among the first n that failed, in the order they came. */
  function Failed<T>(addrs: seq<T>, answers: seq<AddOutcome>, n: nat): seq<T>
    requires n <= |addrs| == |answers|
  {
    if n == 0 then []
    else if answers[n - 1] == Added then Failed(addrs, answers, n - 1)
    else Failed(addrs, answers, n - 1) + [addrs[n - 1]]
  }

  /** The addresses among the first n that succeeded, the latest first. */
  function SucceededBackwards<T>(addrs: seq<T>, answers: seq<AddOutcome>, n: nat): seq<T>
    requires n <= |addrs| == |answers|
  {
    if n == 0 then []
    else if answers[n - 1] == Added then [addrs[n - 1]] + SucceededBackwards(addrs, answers, n - 1)
    else SucceededBackwards(addrs, answers, n - 1)
  }

  /** The status after the first n answers: the first failure's, once there is one. */
  function StatusAfter(answers: seq<AddOutcome>, n: nat): MlrStatus
    requires n <= |answers|
  {
    if n == 0 then MlrSuccess
    else
      var status := StatusAfter(answers, n - 1);
      if status == MlrSuccess then FailureStatus(answers[n - 1]) else status
  }

  /**
   * The array holds the failed addresses among the first failedNum +
   * successNum at its front, and the successful ones, latest first, at its end.
   */
  ghost predicate SortedInto<T>(buf: seq<T>, failedNum: nat, successNum: nat,
                                addrs: seq<T>, answers: seq<AddOutcome>)
  {
    failedNum + successNum <= |addrs| == |answers| <= |buf| &&
    buf[..failedNum] == Failed(addrs, answers, failedNum + successNum) &&
    buf[|buf| - successNum..] == SucceededBackwards(addrs, answers, failedNum + successNum)
  }

  /** Placing the next address on its side keeps the array sorted. */
  lemma PlaceKeepsSorted<T>(buf: seq<T>, failedNum: nat, successNum: nat,
                            addrs: seq<T>, answers: seq<AddOutcome>)
    requires SortedInto(buf, failedNum, successNum, addrs, answers)
    requires failedNum + successNum < |addrs|
    ensures answers[failedNum + successNum] == Added ==>
              SortedInto(buf[|buf| - successNum - 1 := addrs[failedNum + successNum]],
                         failedNum, successNum + 1, addrs, answers)
    ensures answers[failedNum + successNum] != Added ==>
              SortedInto(buf[failedNum := addrs[failedNum + successNum]],
                         failedNum + 1, successNum, addrs, answers)
  {
    var i := failedNum + successNum;
    if answers[i] == Added {
      var buf' := buf[|buf| - successNum - 1 := addrs[i]];
      assert buf'[..failedNum] == buf[..failedNum];
      assert buf'[|buf| - successNum - 1..] == [addrs[i]] + buf[|buf| - successNum..];
    } else {
      var buf' := buf[failedNum := addrs[i]];
      assert buf'[..failedNum + 1] == buf[..failedNum] + [addrs[i]];
      assert buf'[|buf| - successNum..] == buf[|buf| - successNum..];
    }
  }

  /** The next address of the TLV, and the ones after it. */
  lemma NextAddress(addrs: seq<Address>, i: nat, rest: seq<uint8>)
    requires |rest| >= AddressSize
    requires i <= |addrs| && addrs[i..] == Addresses(rest)
    ensures i < |addrs| && addrs[i] == rest[..AddressSize]
    ensures addrs[i + 1..] == Addresses(rest[AddressSize..])
  {
    assert addrs[i..] == [rest[..AddressSize]] + Addresses(rest[AddressSize..]);
    assert addrs[i + 1..] == addrs[i..][1..];
  }

  /**
   * Puts the next address on its side of the array: a failed one right after
   * the failed ones at the front, a successful one right before the
   * successful ones at the end.
   */
  method Place(addresses: array<Address>, failedNum: nat, successNum: nat, address: Address, succeeded: bool,
               ghost addrs: seq<Address>, ghost answers: seq<AddOutcome>)
    returns (failedNum': nat, successNum': nat)
    requires SortedInto(addresses[..], failedNum, successNum, addrs, answers)
    requires failedNum + successNum < |addrs| && address == addrs[failedNum + successNum]
    requires succeeded <==> answers[failedNum + successNum] == Added
    modifies addresses
    ensures succeeded ==> failedNum' == failedNum && successNum' == successNum + 1
    ensures !succeeded ==> failedNum' == failedNum + 1 && successNum' == successNum
    ensures SortedInto(addresses[..], failedNum', successNum', addrs, answers)
  {
    PlaceKeepsSorted(addresses[..], failedNum, successNum, addrs, answers);
    if succeeded {
      addresses[addresses.Length - successNum - 1] := address;
      failedNum', successNum' := failedNum, successNum + 1;
    } else {
      addresses[failedNum] := address;
      failedNum', successNum' := failedNum + 1, successNum;
    }
  }

  /**
   * Walks a well-sized IPv6 Addresses TLV and sorts its addresses into one
   * array of MaxAddresses entries: failed ones from the front, successful
   * ones backwards from the end.
   */
  method RegisterAddresses(payload: seq<uint8>, timeout: uint32, add: AddAnswers)
    returns (failed: seq<Address>, succeeded: seq<Address>, status: MlrStatus)
    requires WellSizedPayload(payload)
    ensures var addrs := Addresses(payload);
            var answers := Answers(timeout, add, addrs);
            failed == Failed(addrs, answers, |addrs|) &&
            succeeded == SucceededBackwards(addrs, answers, |addrs|) &&
            status == StatusAfter(answers, |addrs|)
  {
    var addresses := new Address[MaxAddresses](_ => seq(16, _ => 0));
    var failedNum: nat, successNum: nat := 0, 0;
    status := MlrSuccess;
    var rest := payload;
    ghost var addrs := Addresses(payload);
    ghost var answers := Answers(timeout, add, addrs);
    while |rest| != 0
      invariant |rest| == AddressSize * |Addresses(rest)|
      invariant SortedInto(addresses[..], failedNum, successNum, addrs, answers)
      invariant addrs[failedNum + successNum..] == Addresses(rest)
      invariant status == StatusAfter(answers, failedNum + successNum)
      decreases |rest|
    {
      var i := failedNum + successNum;
      NextAddress(addrs, i, rest);
      var address: Address := rest[..AddressSize];
      rest := rest[AddressSize..];
      var outcome := Added;
      if timeout != 0 {
        outcome := AnswerOf(add, i);
      }
      AnswerAt(timeout, add, addrs, i);
      if outcome != Added && status == MlrSuccess {
        status := FailureStatus(outcome);
      }
      failedNum, successNum := Place(addresses, failedNum, successNum, address, outcome == Added, addrs, answers);
    }
    failed := addresses[..failedNum];
    succeeded := addresses[MaxAddresses - successNum..];
  }

  /**
   * What handling an MLR.req leads to. A request that is not a confirmable
   * POST is dropped unanswered; every other request is answered; only an
   * accepted one announces addresses on the backbone.
   */
  function MlrOutcomeOf(req: MlrRequest, ctx: MlrContext, add: AddAnswers): (out: MlrOutcome)
    ensures !req.confirmablePost ==> out == MlrOutcome(Parse, None, None)
    ensures out.response.Some? <==> out.error == NoError
    ensures out.error != NoError ==> out.error == Parse
    ensures out.backbone.Some? ==>
              ValidateMlr(req, ctx).Accept? && out.backbone.value.timeout == ValidateMlr(req, ctx).timeout &&
              |out.backbone.value.addresses| > 0
  {
    match ValidateMlr(req, ctx)
    case Reject(error, status) =>
      MlrOutcome(error, if error == NoError then Some(MlrResponse(status, [])) else None, None)
    case Accept(addrs, timeout) =>
      var answers := Answers(timeout, add, addrs);
      var succeeded := SucceededBackwards(addrs, answers, |addrs|);
      MlrOutcome(NoError,
                 Some(MlrResponse(StatusAfter(answers, |addrs|), Failed(addrs, answers, |addrs|))),
                 if |succeeded| > 0 then Some(BackboneRegistration(succeeded, timeout)) else None)
  }

  /** Handles one MLR.req on an enabled backbone router. */
  method HandleMulticastListenerRegistration(req: MlrRequest, ctx: MlrContext, add: AddAnswers)
    returns (out: MlrOutcome)
    ensures out == MlrOutcomeOf(req, ctx, add)
  {
    match ValidateMlr(req, ctx)
    case Reject(error, status) =>
      out := MlrOutcome(error, if error == NoError then Some(MlrResponse(status, [])) else None, None);
    case Accept(addrs, timeout) =>
      var failed, succeeded, status := RegisterAddresses(req.addressesTlv.value, timeout, add);
      var backbone := None;
      if |succeeded| > 0 {
        backbone := Some(BackboneRegistration(succeeded, timeout));
      }
      out := MlrOutcome(NoError, Some(MlrResponse(status, failed)), backbone);
  }

  // ---------------------------------------------------------------------
  // Properties of the sorting
  // ---------------------------------------------------------------------

  /** Every address handled ends up on exactly one side. */
  lemma {:induction false} PartitionIsPermutation<T>(addrs: seq<T>, answers: seq<AddOutcome>, n: nat)
    requires n <= |addrs| == |answers|
    ensures multiset(Failed(addrs, answers, n)) + multiset(SucceededBackwards(addrs, answers, n))
            == multiset(addrs[..n])
  {
    if n > 0 {
      PartitionIsPermutation(addrs, answers, n - 1);
      if answers[n - 1] == Added {
        SucceededStepKeepsPermutation(addrs, answers, n);
      } else {
        FailedStepKeepsPermutation(addrs, answers, n);
      }
    }
  }

  lemma SucceededStepKeepsPermutation<T>(addrs: seq<T>, answers: seq<AddOutcome>, n: nat)
    requires 0 < n <= |addrs| == |answers| && answers[n - 1] == Added
    requires multiset(Failed(addrs, answers, n - 1)) + multiset(SucceededBackwards(addrs, answers, n - 1))
             == multiset(addrs[..n - 1])
    ensures multiset(Failed(addrs, answers, n)) + multiset(SucceededBackwards(addrs, answers, n))
            == multiset(addrs[..n])
  {
    var a, f, b := addrs[n - 1], Failed(addrs, answers, n - 1), SucceededBackwards(addrs, answers, n - 1);
    assert addrs[..n] == addrs[..n - 1] + [a];
    calc {
      multiset(Failed(addrs, answers, n)) + multiset(SucceededBackwards(addrs, answers, n));
      { assert Failed(addrs, answers, n) == f; assert SucceededBackwards(addrs, answers, n) == [a] + b; }
      multiset(f) + (multiset{a} + multiset(b));
      (multiset(f) + multiset(b)) + multiset{a};
      multiset(addrs[..n - 1]) + multiset{a};
      multiset(addrs[..n]);
    }
  }

  lemma FailedStepKeepsPermutation<T>(addrs: seq<T>, answers: seq<AddOutcome>, n: nat)
    requires 0 < n <= |addrs| == |answers| && answers[n - 1] != Added
    requires multiset(Failed(addrs, answers, n - 1)) + multiset(SucceededBackwards(addrs, answers, n - 1))
             == multiset(addrs[..n - 1])
    ensures multiset(Failed(addrs, answers, n)) + multiset(SucceededBackwards(addrs, answers, n))
            == multiset(addrs[..n])
  {
    var a, f, b := addrs[n - 1], Failed(addrs, answers, n - 1), SucceededBackwards(addrs, answers, n - 1);
    assert addrs[..n] == addrs[..n - 1] + [a];
    calc {
      multiset(Failed(addrs, answers, n)) + multiset(SucceededBackwards(addrs, answers, n));
      { assert Failed(addrs, answers, n) == f + [a]; assert SucceededBackwards(addrs, answers, n) == b; }
      (multiset(f) + multiset{a}) + multiset(b);
      (multiset(f) + multiset(b)) + multiset{a};
      multiset(addrs[..n - 1]) + multiset{a};
      multiset(addrs[..n]);
    }
  }

  /** As many addresses come out as went in. */
  lemma {:induction false} PartitionSizes<T>(addrs: seq<T>, answers: seq<AddOutcome>, n: nat)
    requires n <= |addrs| == |answers|
    ensures |Failed(addrs, answers, n)| + |SucceededBackwards(addrs, answers, n)| == n
  {
    if n > 0 {
      PartitionSizes(addrs, answers, n - 1);
    }
  }

  /** With a timeout of 0 every address is de-registered: none fails, and all are listed latest first. */
  lemma {:induction false} ZeroTimeoutAllSucceed(add: AddAnswers, addrs: seq<Address>, n: nat)
    requires n <= |addrs|
    ensures Failed(addrs, Answers(0, add, addrs), n) == []
    ensures |SucceededBackwards(addrs, Answers(0, add, addrs), n)| == n
    ensures forall k | 0 <= k < n :: SucceededBackwards(addrs, Answers(0, add, addrs), n)[k] == addrs[n - 1 - k]
  {
    if n > 0 {
      ZeroTimeoutAllSucceed(add, addrs, n - 1);
    }
  }

  /** The status is Success exactly when no address failed. */
  lemma {:induction false} StatusSuccessIffNoFailure<T>(addrs: seq<T>, answers: seq<AddOutcome>, n: nat)
    requires n <= |addrs| == |answers|
    ensures StatusAfter(answers, n) == MlrSuccess <==> Failed(addrs, answers, n) == []
  {
    if n > 0 {
      StatusSuccessIffNoFailure(addrs, answers, n - 1);
    }
  }

  /** Once a failure has set the status, later answers never change it. */
  lemma {:induction false} StatusSticky(answers: seq<AddOutcome>, m: nat, n: nat)
    requires m <= n <= |answers|
    requires StatusAfter(answers, m) != MlrSuccess
    ensures StatusAfter(answers, n) == StatusAfter(answers, m)
    decreases n
  {
    if n > m {
      StatusSticky(answers, m, n - 1);
    }
  }

  /** While every address succeeds the status stays Success. */
  lemma {:induction false} StatusSuccessWhileAllSucceed(answers: seq<AddOutcome>, n: nat)
    requires n <= |answers|
    requires forall i | 0 <= i < n :: answers[i] == Added
    ensures StatusAfter(answers, n) == MlrSuccess
  {
    if n > 0 {
      StatusSuccessWhileAllSucceed(answers, n - 1);
    }
  }

  /** The status reports the first address that failed: Invalid or NoResources. */
  lemma StatusIsFirstFailure(answers: seq<AddOutcome>, j: nat, n: nat)
    requires j < n <= |answers|
    requires answers[j] != Added
    requires forall i | 0 <= i < j :: answers[i] == Added
    ensures StatusAfter(answers, n) == FailureStatus(answers[j])
    ensures StatusAfter(answers, n) in {MlrInvalid, MlrNoResources}
  {
    StatusSuccessWhileAllSucceed(answers, j);
    StatusSticky(answers, j + 1, n);
  }

  /**
   * An accepted MLR.req answers with its failed addresses and announces the
   * others on the backbone: together they are the request's addresses, at
   * most MaxAddresses of them.
   */
  lemma MlrAccountsForEveryAddress(req: MlrRequest, ctx: MlrContext, add: AddAnswers)
    requires ValidateMlr(req, ctx).Accept?
    ensures var out := MlrOutcomeOf(req, ctx, add);
            var addrs := ValidateMlr(req, ctx).addresses;
            out.error == NoError && out.response.Some? &&
            multiset(out.response.value.failed) +
            (if out.backbone.Some? then multiset(out.backbone.value.addresses) else multiset{})
            == multiset(addrs) &&
            |out.response.value.failed| + (if out.backbone.Some? then |out.backbone.value.addresses| else 0)
            <= MaxAddresses
  {
    var v := ValidateMlr(req, ctx);
    var answers := Answers(v.timeout, add, v.addresses);
    PartitionIsPermutation(v.addresses, answers, |v.addresses|);
    PartitionSizes(v.addresses, answers, |v.addresses|);
    assert v.addresses[..|v.addresses|] == v.addresses;
  }

  // ---------------------------------------------------------------------
  // DUA registration
  // ---------------------------------------------------------------------

  /** Status codes of the Thread Status TLV in a DUA.rsp. */
  datatype DuaStatus =
    | DuaSuccess
    | DuaInvalid
    | DuaDuplicate
    | DuaNoResources
    | DuaNotPrimary
    | DuaGeneralFailure

  /** The result of looking a TLV up in a message. */
  datatype Lookup<T> = Found(value: T) | Absent | Malformed

  function LookupError<T>(l: Lookup<T>): Error
  {
    match l
    case Found(_) => NoError
    case Absent => NotFound
    case Malformed => Parse
  }

  /** An 8-byte interface identifier. */
  type Iid = s: seq<uint8> | |s| == 8 witness seq(8, _ => 0)

  /** The parts of a DUA.req and its sender the handler reads. */
  datatype DuaRequest = DuaRequest(
    peerIsRloc: bool,
    confirmablePost: bool,
    target: Lookup<Address>,
    meshLocalIid: Lookup<Iid>,
    targetIsDomainUnicast: bool)

  datatype DuaContext = DuaContext(isPrimary: bool, hasDomainPrefix: bool)

  /** Whether the ND proxy table was asked to register, and the DUA.rsp status sent, if any. */
  datatype DuaOutcome = DuaOutcome(error: Error, registered: bool, response: Option<DuaStatus>)

  /** The DUA.rsp status for what the ND proxy table answered to Register. */
  function DuaStatusForRegister(e: Error): (s: DuaStatus)
    ensures s == DuaSuccess <==> e == NoError
    ensures s == DuaDuplicate <==> e == Duplicated
    ensures s == DuaNoResources <==> e == NoBufs
    ensures s == DuaGeneralFailure <==> e !in {NoError, Duplicated, NoBufs}
  {
    match e
    case NoError => DuaSuccess
    case Duplicated => DuaDuplicate
    case NoBufs => DuaNoResources
    case _ => DuaGeneralFailure
  }

  /** Handles one DUA.req, given what the ND proxy table answers to Register. */
  function HandleDuaRegistration(req: DuaRequest, ctx: DuaContext, registerResult: Error): (out: DuaOutcome)
    ensures !req.peerIsRloc ==> out.error == Drop
    ensures out.response.Some? <==> out.error == NoError
    ensures out.error != NoError ==> !out.registered
    ensures out.registered <==>
              req.peerIsRloc && req.confirmablePost && req.target.Found? && req.meshLocalIid.Found? &&
              ctx.isPrimary && ctx.hasDomainPrefix && req.targetIsDomainUnicast
    ensures out.registered ==> out.response == Some(DuaStatusForRegister(registerResult))
    ensures out.response == Some(DuaSuccess) <==> out.registered && registerResult == NoError
  {
    if !req.peerIsRloc then DuaOutcome(Drop, false, None)
    else if !req.confirmablePost then DuaOutcome(Parse, false, None)
    else if !req.target.Found? then DuaOutcome(LookupError(req.target), false, None)
    else if !req.meshLocalIid.Found? then DuaOutcome(LookupError(req.meshLocalIid), false, None)
    else if !ctx.isPrimary then DuaOutcome(NoError, false, Some(DuaNotPrimary))
    else if !ctx.hasDomainPrefix then DuaOutcome(NoError, false, Some(DuaGeneralFailure))
    else if !req.targetIsDomainUnicast then DuaOutcome(NoError, false, Some(DuaInvalid))
    else DuaOutcome(NoError, true, Some(DuaStatusForRegister(registerResult)))
  }

  // ---------------------------------------------------------------------
  // Proactive backbone notification
  // ---------------------------------------------------------------------

  /** The ND proxy entry of a DUA: its owner's ML-IID and time since its last transaction. */
  datatype NdProxy = NdProxy(meshLocalIid: Iid, timeSinceLastTransaction: uint32)

  /** What a PRO_BB.ntf for a DUA makes the backbone router do. */
  datatype ProactiveAction =
    | NoProxy
    | EraseProxy
    | SendProactiveNotification(meshLocalIid: Iid, timeSinceLastTransaction: uint32)
    | EraseAndSendAddressError(meshLocalIid: Iid)

  function ProactiveNotificationAction(proxy: Option<NdProxy>, meshLocalIid: Iid, timeSinceLastTransaction: uint32)
    : (a: ProactiveAction)
    ensures a == NoProxy <==> proxy.None?
    ensures a == EraseProxy <==>
              proxy.Some? && proxy.value.meshLocalIid == meshLocalIid &&
              timeSinceLastTransaction <= proxy.value.timeSinceLastTransaction
    ensures a.SendProactiveNotification? <==>
              proxy.Some? && proxy.value.meshLocalIid == meshLocalIid &&
              timeSinceLastTransaction > proxy.value.timeSinceLastTransaction
    ensures a.SendProactiveNotification? ==>
              a == SendProactiveNotification(proxy.value.meshLocalIid, proxy.value.timeSinceLastTransaction)
    ensures a.EraseAndSendAddressError? <==> proxy.Some? && proxy.value.meshLocalIid != meshLocalIid
    ensures a.EraseAndSendAddressError? ==> a.meshLocalIid == meshLocalIid
  {
    match proxy
    case None => NoProxy
    case Some(p) =>
      if p.meshLocalIid == meshLocalIid then
        if timeSinceLastTransaction <= p.timeSinceLastTransaction then EraseProxy
        else SendProactiveNotification(p.meshLocalIid, p.timeSinceLastTransaction)
      else EraseAndSendAddressError(meshLocalIid)
  }
}
