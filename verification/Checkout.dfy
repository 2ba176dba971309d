/**
 Attending an event and starting a checkout. The database and the payments manager are oracles whose
 replies are arbitrary; every call is recorded together with the reply the handler acted on.
 */
module Checkout {
  import opened Wrappers
  import opened LeaveEvent

  type Id = nat
  type Answers = string
  type Questions = seq<string>

  datatype TicketType = TicketType(id: Id, selectable: bool, soldOut: bool)

  datatype EventSummary = EventSummary(approvalRequired: bool, waitlistEnabled: bool, ticketTypes: seq<TicketType>)

  datatype PurchaseStatus =
    Completed | Expired | Pending | Refunded | RefundPending | RefundRecoveryPending | RefundRequested

  datatype Purchase = Purchase(id: Id, status: PurchaseStatus, amountMinor: int, holdExpiresAt: Option<nat>)

  datatype AttendResult = AttendConflict(conflict: string) | Enrollment(status: EnrollmentStatus)
  datatype PrepareResult = PrepareConflict(conflict: string) | Prepared(purchase: Purchase)

  datatype CheckoutInput = CheckoutInput(
    admissionOffer: Option<Id>, discountCode: Option<string>, ticketType: Option<Id>, answers: Option<Answers>)

  /** Replies of the outside world; questions are asked for by the position of the call. */
  datatype World = World(
    active: Result<()>,
    summary: Result<EventSummary>,
    questions: nat -> Result<Questions>,
    attend: Result<AttendResult>,
    prepare: Result<PrepareResult>,
    redirectUrl: Result<string>,
    completeFree: Result<()>,
    context: Result<()>,
    noticeBuilds: bool,
    enqueue: Result<()>,
    /** Whether answers satisfy a questionnaire. */
    satisfies: (Answers, Questions) -> bool)

  datatype Call =
    | EnsureActive
    | GetSummary
    | GetQuestions(reply: Result<Questions>)
    | Attend(ticketType: Option<Id>, answers: Option<Answers>)
    | PrepareHold(ticket: Id, offer: Option<Id>, discount: Option<string>, holdAnswers: Option<Answers>, prepared: Result<PrepareResult>)
    | GetRedirectUrl(paid: Purchase)
    | CompleteFree(purchaseId: Id)
    | LoadContext
    | EnqueueNotice

  datatype Response =
    | ConflictResponse(conflict: string)
    | StatusResponse(status: EnrollmentStatus)
    | RedirectResponse(holdExpiresAt: Option<nat>, url: string)
    | ErrorResponse(error: string)
    | PanicResponse

  // ---- Pure helpers ---------------------------------------------------------------------------

  function ValidateRegistrationAnswers(w: World, answers: Option<Answers>, questions: Questions): Result<()> {
    match answers
    case Some(a) => if w.satisfies(a, questions) then Ok(()) else Err("invalid answers")
    case None => if questions == [] then Ok(()) else Err("questionnaire answers are required")
  }

  predicate ShouldDeferRegistrationAnswers(event: EventSummary, ticketType: Option<Id>) {
    && !event.approvalRequired && event.waitlistEnabled && ticketType.Some?
    && exists t | t in event.ticketTypes :: t.id == ticketType.value && t.soldOut
  }

  function Selectable(ts: seq<TicketType>): seq<TicketType> {
    if ts == [] then [] else (if ts[0].selectable then [ts[0]] else []) + Selectable(ts[1..])
  }

  function SinglePublicTicketType(event: EventSummary): Option<Id> {
    var ts := Selectable(event.ticketTypes);
    if |ts| == 1 then Some(ts[0].id) else None
  }

  function GetCheckoutStatusResponse(status: PurchaseStatus): Result<Option<EnrollmentStatus>> {
    match status
    case Completed => Ok(Some(Attendee))
    case Pending => Ok(None)
    case RefundRecoveryPending => Err("checkout is unavailable while refund recovery is in progress")
    case RefundRequested => Err("checkout is unavailable while a refund is in progress")
    case _ => Err("checkout is unavailable for this purchase")
  }

  // ---- What the traces must satisfy --------------------------------------------------------------

  /** Answers satisfy the questionnaire; without answers there must be no questions. */
  predicate Passes(w: World, answers: Option<Answers>, questions: Questions) {
    (answers.Some? ==> w.satisfies(answers.value, questions)) && (answers.None? ==> questions == [])
  }

  /** No approval is needed, there is a waiting list and the ticket asked for is listed as sold out. */
  predicate JoinsWaitlist(event: EventSummary, asked: Option<Id>) {
    && !event.approvalRequired && event.waitlistEnabled
    && exists i :: 0 <= i < |event.ticketTypes| && asked == Some(event.ticketTypes[i].id) && event.ticketTypes[i].soldOut
  }

  /** The ticket type at `i` is the only one that can be selected. */
  predicate OnlySelectable(ts: seq<TicketType>, i: int) {
    0 <= i < |ts| && forall j :: 0 <= j < |ts| ==> (ts[j].selectable <==> i == j)
  }

  /** A request asks for its own ticket type, or for the only selectable one, or for none if there is no such. */
  ghost predicate AsksFor(event: EventSummary, ticket: Option<Id>, asked: Option<Id>) {
    if ticket.Some? then asked == ticket
    else if asked.Some? then exists i :: OnlySelectable(event.ticketTypes, i) && event.ticketTypes[i].id == asked.value
    else forall i :: !OnlySelectable(event.ticketTypes, i)
  }

  lemma {:induction false} SelectableFacts(ts: seq<TicketType>)
    ensures forall t :: t in Selectable(ts) ==> t in ts && t.selectable
    ensures Selectable(ts) == [] <==> forall j :: 0 <= j < |ts| ==> !ts[j].selectable
    ensures |Selectable(ts)| == 1 <==> exists i :: OnlySelectable(ts, i)
    ensures forall i :: OnlySelectable(ts, i) ==> Selectable(ts) == [ts[i]]
  {
    if ts != [] {
      var rest := ts[1..];
      SelectableFacts(rest);
      assert forall j :: 1 <= j < |ts| ==> ts[j] == rest[j - 1];
      forall i | OnlySelectable(ts, i)
        ensures Selectable(ts) == [ts[i]]
      {
        if i > 0 { assert OnlySelectable(rest, i - 1); }
      }
      if |Selectable(ts)| == 1 {
        if ts[0].selectable {
          assert OnlySelectable(ts, 0);
        } else {
          var i :| OnlySelectable(rest, i);
          assert OnlySelectable(ts, i + 1);
        }
      }
    }
  }

  lemma RequestedTicketIsAsked(event: EventSummary, ticket: Option<Id>)
    ensures AsksFor(event, ticket, RequestedTicket(event, ticket))
  {
    SelectableFacts(event.ticketTypes);
  }

  lemma DeferIff(event: EventSummary, asked: Option<Id>)
    ensures ShouldDeferRegistrationAnswers(event, asked) <==> JoinsWaitlist(event, asked)
  {
    assert forall i :: 0 <= i < |event.ticketTypes| ==> event.ticketTypes[i] in event.ticketTypes;
  }

  /**
   An attendance request at `i` is for the ticket asked for and carries the answers. They passed against
   questions loaded before, or they were deferred, and then no questions have been loaded: exactly when
   the request joins a waiting list.
   */
  ghost predicate AttendIsJustified(w: World, calls: seq<Call>, ticket: Option<Id>, answers: Option<Answers>, i: int)
    requires 0 <= i < |calls|
  {
    calls[i].Attend? ==>
      && w.summary.Ok? && AsksFor(w.summary.value, ticket, calls[i].ticketType) && calls[i].answers == answers
      && ((exists j :: j < i && LoadedAndValid(w, calls, j, answers)) <==> !JoinsWaitlist(w.summary.value, calls[i].ticketType))
      && ((forall j :: 0 <= j < i ==> !calls[j].GetQuestions?) <==> JoinsWaitlist(w.summary.value, calls[i].ticketType))
  }

  /** Only calls other than attendance requests are added. */
  predicate AddsNoAttend(before: seq<Call>, calls: seq<Call>) {
    before <= calls && forall i :: |before| <= i < |calls| ==> !calls[i].Attend?
  }

  /** What a hold that was asked for leads to. */
  function HoldResponse(w: World): Response {
    match w.prepare
    case Err(error) => ErrorResponse(error)
    case Ok(PrepareConflict(conflict)) => ConflictResponse(conflict)
    case Ok(Prepared(purchase)) => CheckoutTail(w, purchase).1
  }

  /** The `j`-th call loaded questions that the answers satisfy. */
  predicate LoadedAndValid(w: World, calls: seq<Call>, j: int, answers: Option<Answers>) {
    && 0 <= j < |calls| && calls[j].GetQuestions? && calls[j].reply.Ok?
    && Passes(w, answers, calls[j].reply.value)
  }

  /** A hold asked for at `i` carries answers that passed validation against questions loaded before. */
  ghost predicate HoldIsValidated(w: World, calls: seq<Call>, i: nat)
    requires i < |calls|
  {
    calls[i].PrepareHold? ==> exists j :: j < i && LoadedAndValid(w, calls, j, calls[i].holdAnswers)
  }

  ghost predicate HoldsAreValidated(w: World, calls: seq<Call>) {
    forall i: nat :: i < |calls| ==> HoldIsValidated(w, calls, i)
  }

  /** The payment calls and the response a prepared purchase leads to, by its state alone. */
  function CheckoutTail(w: World, p: Purchase): (seq<Call>, Response) {
    match p.status
    case Completed => ([], StatusResponse(Attendee))
    case Pending =>
      if p.amountMinor == 0 then
        ([CompleteFree(p.id)], if w.completeFree.Ok? then StatusResponse(Attendee) else ErrorResponse(w.completeFree.error))
      else
        ([GetRedirectUrl(p)],
         if w.redirectUrl.Ok? then RedirectResponse(p.holdExpiresAt, w.redirectUrl.value) else ErrorResponse(w.redirectUrl.error))
    case RefundRecoveryPending => ([], ErrorResponse("checkout is unavailable while refund recovery is in progress"))
    case RefundRequested => ([], ErrorResponse("checkout is unavailable while a refund is in progress"))
    case _ => ([], ErrorResponse("checkout is unavailable for this purchase"))
  }

  predicate IsPayment(c: Call) {
    c.GetRedirectUrl? || c.CompleteFree?
  }

  /** The first hold, at `i`, prepared a purchase, and the rest of the run is its tail. */
  ghost predicate TailBegins(w: World, calls: seq<Call>, response: Response, i: int) {
    && 0 <= i < |calls| && Quiet(calls[..i])
    && calls[i].PrepareHold? && calls[i].prepared.Ok? && calls[i].prepared.value.Prepared?
    && (calls[i + 1..], response) == CheckoutTail(w, calls[i].prepared.value.purchase)
  }

  /** Nothing was held or paid so far. */
  predicate Quiet(calls: seq<Call>) {
    forall j :: 0 <= j < |calls| ==> !calls[j].PrepareHold? && !IsPayment(calls[j])
  }

  /** A hold that prepared no purchase. */
  predicate Unprepared(c: Call) {
    !IsPayment(c) && (c.PrepareHold? ==> c.prepared.Err? || c.prepared.value.PrepareConflict?)
  }

  /** After a prepared purchase comes exactly its tail; there are no payment calls otherwise. */
  ghost predicate TailIsDetermined(w: World, calls: seq<Call>, response: Response) {
    || (exists i :: TailBegins(w, calls, response, i))
    || (forall j :: 0 <= j < |calls| ==> Unprepared(calls[j]))
  }

  lemma {:induction false} KeepsHolds(w: World, calls: seq<Call>, c: Call)
    requires HoldsAreValidated(w, calls) && !c.PrepareHold?
    ensures HoldsAreValidated(w, calls + [c]) && (HasHold(calls + [c]) <==> HasHold(calls))
  {
    var all := calls + [c];
    if i :| 0 <= i < |calls| && calls[i].PrepareHold? { assert all[i].PrepareHold?; }
    forall i: nat | i < |all|
      ensures HoldIsValidated(w, all, i)
    {
      if i < |calls| && calls[i].PrepareHold? {
        assert HoldIsValidated(w, calls, i);
        var k :| k < i && LoadedAndValid(w, calls, k, calls[i].holdAnswers);
        assert all[k] == calls[k] && LoadedAndValid(w, all, k, calls[i].holdAnswers);
      }
    }
  }

  lemma {:induction false} AddsHold(w: World, calls: seq<Call>, c: Call, j: nat)
    requires HoldsAreValidated(w, calls) && c.PrepareHold?
    requires LoadedAndValid(w, calls, j, c.holdAnswers)
    ensures HoldsAreValidated(w, calls + [c])
  {
    var all := calls + [c];
    assert all[j] == calls[j] && all[|calls|] == c && LoadedAndValid(w, all, j, c.holdAnswers);
    forall i: nat | i < |all|
      ensures HoldIsValidated(w, all, i)
    {
      if i < |calls| && calls[i].PrepareHold? {
        assert HoldIsValidated(w, calls, i);
        var k :| k < i && LoadedAndValid(w, calls, k, calls[i].holdAnswers);
        assert all[k] == calls[k] && LoadedAndValid(w, all, k, calls[i].holdAnswers);
      }
    }
  }

  lemma TailAppended(w: World, before: seq<Call>, hold: Call)
    requires Quiet(before) && hold.PrepareHold? && hold.prepared.Ok? && hold.prepared.value.Prepared?
    ensures var (tail, response) := CheckoutTail(w, hold.prepared.value.purchase);
            TailIsDetermined(w, before + [hold] + tail, response)
  {
    var (tail, response) := CheckoutTail(w, hold.prepared.value.purchase);
    var calls := before + [hold] + tail;
    assert calls[|before|] == hold && calls[|before| + 1..] == tail && calls[..|before|] == before;
    assert TailBegins(w, calls, response, |before|);
  }

  // ---- The handlers ---------------------------------------------------------------------------

  /** `create_checkout_hold`: a ticket must be chosen, then one hold is requested. */
  method CreateCheckoutHold(w: World, input: CheckoutInput, calls: seq<Call>) returns (r: Result<PrepareResult>, calls': seq<Call>)
    ensures input.ticketType.None? ==> r == Err("ticket type is required") && calls' == calls
    ensures input.ticketType.Some? ==>
      r == w.prepare && calls' == calls + [HoldFor(w, input)]
    ensures forall c :: c in calls' && c !in calls ==>
      && c.PrepareHold? && Some(c.ticket) == input.ticketType && c.offer == input.admissionOffer
      && c.discount == input.discountCode && c.holdAnswers == input.answers && c.prepared == r
  {
    if input.ticketType.None? {
      return Err("ticket type is required"), calls;
    }
    r := w.prepare;
    calls' := calls + [PrepareHold(input.ticketType.value, input.admissionOffer, input.discountCode, input.answers, r)];
  }

  /** Whether a checkout request gets as far as asking for a hold. */
  predicate Checkable(w: World, input: CheckoutInput) {
    && w.active.Ok? && w.summary.Ok? && input.ticketType.Some?
    && w.questions(2).Ok? && Passes(w, input.answers, w.questions(2).value)
  }

  method StartCheckout(w: World, input: CheckoutInput) returns (response: Response, calls: seq<Call>)
    ensures HoldsAreValidated(w, calls) && TailIsDetermined(w, calls, response)
    ensures Checkable(w, input) ==> HoldFor(w, input) in calls && response == HoldResponse(w)
    ensures !Checkable(w, input) ==> response.ErrorResponse? && forall c :: c in calls ==> !c.PrepareHold?
  {
    calls := [EnsureActive];
    if w.active.Err? {
      return ErrorResponse(w.active.error), calls;
    }
    calls := calls + [GetSummary];
    if w.summary.Err? {
      return ErrorResponse(w.summary.error), calls;
    }
    var questions := w.questions(|calls|);
    calls := calls + [GetQuestions(questions)];
    if questions.Err? {
      return ErrorResponse(questions.error), calls;
    }
    var valid := ValidateRegistrationAnswers(w, input.answers, questions.value);
    if valid.Err? {
      return ErrorResponse(valid.error), calls;
    }
    ghost var before := calls;
    var prepared;
    prepared, calls := CreateCheckoutHold(w, input, calls);
    if calls != before { AddsHold(w, before, calls[|before|], 2); }
    if prepared.Err? {
      return ErrorResponse(prepared.error), calls;
    }
    if prepared.value.PrepareConflict? {
      return ConflictResponse(prepared.value.conflict), calls;
    }
    TailAppended(w, before, calls[|before|]);
    TailKeepsHolds(w, calls, prepared.value.purchase);
    response, calls := FinishStartedCheckout(w, prepared.value.purchase, calls);
  }

  /** A tail adds payment calls only. */
  lemma TailKeepsHolds(w: World, calls: seq<Call>, purchase: Purchase)
    requires HoldsAreValidated(w, calls)
    ensures var all := calls + CheckoutTail(w, purchase).0;
            HoldsAreValidated(w, all) && (HasHold(calls) <==> HasHold(all)) && AddsNoAttend(calls, all)
  {
    hide CheckoutTail, HoldsAreValidated, HasHold;
    TailIsShort(w, purchase);
    var tail := CheckoutTail(w, purchase).0;
    if tail == [] {
      assert calls + tail == calls;
    } else {
      KeepsHolds(w, calls, tail[0]);
      assert tail == [tail[0]];
    }
  }

  /** The tail of `start_checkout`: status, then free tickets, then paid ones. */
  method FinishStartedCheckout(w: World, purchase: Purchase, calls: seq<Call>) returns (response: Response, calls': seq<Call>)
    ensures calls' == calls + CheckoutTail(w, purchase).0 && response == CheckoutTail(w, purchase).1
  {
    calls' := calls;
    var status := GetCheckoutStatusResponse(purchase.status);
    if status.Err? {
      return ErrorResponse(status.error), calls';
    }
    if status.value.Some? {
      return StatusResponse(status.value.value), calls';
    }
    if purchase.amountMinor == 0 {
      calls' := calls' + [CompleteFree(purchase.id)];
      if w.completeFree.Err? {
        return ErrorResponse(w.completeFree.error), calls';
      }
      return StatusResponse(Attendee), calls';
    }
    calls' := calls' + [GetRedirectUrl(purchase)];
    if w.redirectUrl.Err? {
      return ErrorResponse(w.redirectUrl.error), calls';
    }
    response := RedirectResponse(purchase.holdExpiresAt, w.redirectUrl.value);
  }

  /** The answers collected with the request, and the calls made to check them. */
  method CheckAnswers(w: World, answers: Option<Answers>, calls: seq<Call>) returns (r: Result<Questions>, calls': seq<Call>)
    requires Quiet(calls) && HoldsAreValidated(w, calls)
    ensures Quiet(calls') && HoldsAreValidated(w, calls') && calls' == calls + [GetQuestions(w.questions(|calls|))]
    ensures r.Ok? ==> r == w.questions(|calls|) && Passes(w, answers, r.value)
    ensures r.Err? ==> w.questions(|calls|).Ok? ==> !Passes(w, answers, w.questions(|calls|).value)
  {
    r := w.questions(|calls|);
    KeepsHolds(w, calls, GetQuestions(r));
    calls' := calls + [GetQuestions(r)];
    if r.Ok? {
      var valid := ValidateRegistrationAnswers(w, answers, r.value);
      if valid.Err? {
        r := Err(valid.error);
      }
    }
  }

  /** The ticket type an attendance request is about. */
  function RequestedTicket(event: EventSummary, ticket: Option<Id>): Option<Id> {
    if ticket.Some? then ticket else SinglePublicTicketType(event)
  }

  /** Whether the request reaches the database: questions come third and are skipped when deferred. */
  predicate Admitted(w: World, ticket: Option<Id>, answers: Option<Answers>) {
    && w.active.Ok? && w.summary.Ok?
    && (|| JoinsWaitlist(w.summary.value, RequestedTicket(w.summary.value, ticket))
        || (w.questions(2).Ok? && Passes(w, answers, w.questions(2).value)))
  }

  /** Whether the answers of a request that turned into checkout are good for a hold. */
  predicate Holdable(w: World, deferred: bool, answers: Option<Answers>) {
    deferred ==> w.questions(3).Ok? && Passes(w, answers, w.questions(3).value)
  }

  /** Deferred answers are needed after all. */
  predicate MustRecollect(w: World, answers: Option<Answers>) {
    answers.None? && w.questions(3).Ok? && w.questions(3).value != []
  }

  /** The hold a checkout input asks for. */
  function HoldFor(w: World, input: CheckoutInput): Call
    requires input.ticketType.Some?
  {
    PrepareHold(input.ticketType.value, input.admissionOffer, input.discountCode, input.answers, w.prepare)
  }

  predicate HasHold(calls: seq<Call>) {
    exists i :: 0 <= i < |calls| && calls[i].PrepareHold?
  }

  /** The response to an admitted request, by what the database decided. */
  ghost predicate AttendOutcome(w: World, deferred: bool, answers: Option<Answers>, calls: seq<Call>, response: Response) {
    match w.attend
    case Err(error) => response == ErrorResponse(error)
    case Ok(AttendConflict(conflict)) => response == ConflictResponse(conflict)
    case Ok(Enrollment(status)) =>
      if status != PendingPayment then response == if status == NotEnrolled && w.context.Ok? then PanicResponse else StatusResponse(status)
      else if deferred && MustRecollect(w, answers) then response == ConflictResponse("registration-answers-required")
      else if HasHold(calls) then response == HoldResponse(w)
      else response.ErrorResponse?
  }

  method AttendEvent(w: World, ticket: Option<Id>, answers: Option<Answers>) returns (response: Response, calls: seq<Call>)
    ensures HoldsAreValidated(w, calls) && TailIsDetermined(w, calls, response)
    ensures forall i: nat :: i < |calls| ==> AttendIsJustified(w, calls, ticket, answers, i)
    ensures Admitted(w, ticket, answers) ==> Attend(RequestedTicket(w.summary.value, ticket), answers) in calls
    ensures !Admitted(w, ticket, answers) ==> response.ErrorResponse? && forall c :: c in calls ==> !c.Attend?
    ensures HasHold(calls) ==>
      && Admitted(w, ticket, answers) && RequestedTicket(w.summary.value, ticket).Some?
      && HoldFor(w, CheckoutInput(None, None, RequestedTicket(w.summary.value, ticket), answers)) in calls
    ensures Admitted(w, ticket, answers) ==>
      var asked := RequestedTicket(w.summary.value, ticket);
      var deferred := JoinsWaitlist(w.summary.value, asked);
      && (HasHold(calls) <==> w.attend == Ok(Enrollment(PendingPayment)) && asked.Some? && Holdable(w, deferred, answers))
      && AttendOutcome(w, deferred, answers, calls, response)
  {
    calls := [EnsureActive];
    if w.active.Err? {
      return ErrorResponse(w.active.error), calls;
    }
    calls := calls + [GetSummary];
    if w.summary.Err? {
      return ErrorResponse(w.summary.error), calls;
    }
    var ticketType := RequestedTicket(w.summary.value, ticket);
    var deferred := ShouldDeferRegistrationAnswers(w.summary.value, ticketType);
    DeferIff(w.summary.value, ticketType);
    RequestedTicketIsAsked(w.summary.value, ticket);
    if !deferred {
      var checked;
      checked, calls := CheckAnswers(w, answers, calls);
      if checked.Err? {
        return ErrorResponse(checked.error), calls;
      }
    }
    hide ShouldDeferRegistrationAnswers, SinglePublicTicketType, HoldsAreValidated, TailIsDetermined, ValidateRegistrationAnswers;
    hide JoinsWaitlist, AsksFor, AttendOutcome, HasHold, Holdable;
    ghost var before := calls;
    response, calls := AttendAdmitted(w, ticketType, deferred, answers, calls);
    OneAttend(w, ticket, ticketType, answers, before, calls);
  }

  /** The one attendance request is justified by the calls before it. */
  lemma OneAttend(w: World, ticket: Option<Id>, asked: Option<Id>, answers: Option<Answers>, before: seq<Call>, calls: seq<Call>)
    requires w.summary.Ok? && AsksFor(w.summary.value, ticket, asked)
    requires var deferred := JoinsWaitlist(w.summary.value, asked);
      && |before| == (if deferred then 2 else 3) && before[0] == EnsureActive && before[1] == GetSummary
      && (!deferred ==> LoadedAndValid(w, before, 2, answers))
    requires before < calls && calls[|before|] == Attend(asked, answers) && AddsNoAttend(before + [Attend(asked, answers)], calls)
    ensures forall i: nat :: i < |calls| ==> AttendIsJustified(w, calls, ticket, answers, i)
  {
    hide AsksFor, JoinsWaitlist, Passes;
    var n := |before|;
    assert forall j :: 0 <= j < n ==> calls[j] == before[j];
    assert !JoinsWaitlist(w.summary.value, asked) ==> LoadedAndValid(w, calls, 2, answers);
    forall i: nat | i < |calls|
      ensures AttendIsJustified(w, calls, ticket, answers, i)
    {
      if i < n { assert !calls[i].Attend?; }
    }
  }

  /** From the attendance request on; unless the answers were deferred they have just been checked. */
  method AttendAdmitted(w: World, ticketType: Option<Id>, deferred: bool, answers: Option<Answers>, before: seq<Call>)
    returns (response: Response, calls: seq<Call>)
    requires Quiet(before) && HoldsAreValidated(w, before) && |before| == if deferred then 2 else 3
    requires !deferred ==> LoadedAndValid(w, before, 2, answers)
    ensures HoldsAreValidated(w, calls) && TailIsDetermined(w, calls, response)
    ensures before < calls && calls[|before|] == Attend(ticketType, answers)
    ensures AddsNoAttend(before + [Attend(ticketType, answers)], calls)
    ensures HasHold(calls) <==>
      w.attend == Ok(Enrollment(PendingPayment)) && ticketType.Some? && Holdable(w, deferred, answers)
    ensures HasHold(calls) ==> HoldFor(w, CheckoutInput(None, None, ticketType, answers)) in calls
    ensures AttendOutcome(w, deferred, answers, calls, response)
  {
    hide ValidateRegistrationAnswers, HoldsAreValidated;
    KeepsHolds(w, before, Attend(ticketType, answers));
    calls := before + [Attend(ticketType, answers)];
    if w.attend.Err? {
      return ErrorResponse(w.attend.error), calls;
    }
    if w.attend.value.AttendConflict? {
      return ConflictResponse(w.attend.value.conflict), calls;
    }
    var enrollment := w.attend.value.status;
    if enrollment == PendingPayment {
      response, calls := AttendPendingPayment(w, CheckoutInput(None, None, ticketType, answers), deferred, calls);
      return;
    }
    response := StatusResponse(enrollment);
    if enrollment == Attendee {
      return;
    }
    response, calls := NotifyAttendance(w, enrollment, calls);
  }

  /** Recollects deferred answers when the waitlist decision turned into checkout, then checks out. */
  method AttendPendingPayment(w: World, input: CheckoutInput, deferred: bool, before: seq<Call>)
    returns (response: Response, calls: seq<Call>)
    requires Quiet(before) && HoldsAreValidated(w, before)
    requires !deferred ==> LoadedAndValid(w, before, 2, input.answers)
    requires deferred ==> |before| == 3
    ensures HoldsAreValidated(w, calls) && TailIsDetermined(w, calls, response) && before <= calls
    ensures HasHold(calls) <==> input.ticketType.Some? && Holdable(w, deferred, input.answers)
    ensures HasHold(calls) ==> HoldFor(w, input) in calls
    ensures AddsNoAttend(before, calls)
    ensures if deferred && MustRecollect(w, input.answers) then response == ConflictResponse("registration-answers-required")
            else if HasHold(calls) then response == HoldResponse(w)
            else response.ErrorResponse?
  {
    hide HoldsAreValidated;
    calls := before;
    ghost var loaded := 2;
    if deferred {
      loaded := |calls|;
      var questions := w.questions(|calls|);
      if input.answers.None? && questions.Ok? && questions.value != [] {
        KeepsHolds(w, calls, GetQuestions(questions));
        return ConflictResponse("registration-answers-required"), calls + [GetQuestions(questions)];
      }
      var checked;
      checked, calls := CheckAnswers(w, input.answers, calls);
      if checked.Err? {
        return ErrorResponse(checked.error), calls;
      }
    }
    response, calls := AttendThroughCheckout(w, input, calls, loaded);
  }

  /** Checkout inside `attend_event`: status first, then paid tickets, then free ones. */
  method AttendThroughCheckout(w: World, input: CheckoutInput, before: seq<Call>, ghost loaded: nat)
    returns (response: Response, calls: seq<Call>)
    requires Quiet(before) && HoldsAreValidated(w, before)
    requires LoadedAndValid(w, before, loaded, input.answers)
    ensures HoldsAreValidated(w, calls) && TailIsDetermined(w, calls, response) && before <= calls
    ensures HasHold(calls) <==> input.ticketType.Some?
    ensures HasHold(calls) ==> HoldFor(w, input) in calls
    ensures AddsNoAttend(before, calls)
    ensures response == if HasHold(calls) then HoldResponse(w) else ErrorResponse("ticket type is required")
  {
    var prepared;
    prepared, calls := CreateCheckoutHold(w, input, before);
    if calls != before { AddsHold(w, before, calls[|before|], loaded); }
    if prepared.Err? {
      return ErrorResponse(prepared.error), calls;
    }
    if prepared.value.PrepareConflict? {
      return ConflictResponse(prepared.value.conflict), calls;
    }
    hide CheckoutTail, HoldsAreValidated, TailIsDetermined, LoadedAndValid;
    TailAppended(w, before, calls[|before|]);
    TailKeepsHolds(w, calls, prepared.value.purchase);
    assert HasHold(calls) && HoldFor(w, input) in calls;
    response, calls := FinishAttendedCheckout(w, prepared.value.purchase, calls);
  }

  /** The tail of `attend_event`: status, then paid tickets, then free ones. */
  method FinishAttendedCheckout(w: World, purchase: Purchase, calls: seq<Call>) returns (response: Response, calls': seq<Call>)
    ensures calls' == calls + CheckoutTail(w, purchase).0 && response == CheckoutTail(w, purchase).1
  {
    calls' := calls;
    var enrollment := PendingPayment;
    var status := GetCheckoutStatusResponse(purchase.status);
    if status.Err? {
      return ErrorResponse(status.error), calls';
    } else if status.value.Some? {
      enrollment := status.value.value;
    } else if purchase.amountMinor != 0 {
      calls' := calls' + [GetRedirectUrl(purchase)];
      if w.redirectUrl.Err? {
        return ErrorResponse(w.redirectUrl.error), calls';
      }
      return RedirectResponse(purchase.holdExpiresAt, w.redirectUrl.value), calls';
    } else {
      calls' := calls' + [CompleteFree(purchase.id)];
      if w.completeFree.Err? {
        return ErrorResponse(w.completeFree.error), calls';
      }
      enrollment := Attendee;
    }
    response := StatusResponse(enrollment);
  }

  /** Best-effort notification after an attendance change; it never alters the response. */
  method NotifyAttendance(w: World, enrollment: EnrollmentStatus, before: seq<Call>) returns (response: Response, calls: seq<Call>)
    requires Quiet(before) && HoldsAreValidated(w, before)
    ensures Quiet(calls) && HoldsAreValidated(w, calls)
    ensures response == if enrollment == NotEnrolled && w.context.Ok? then PanicResponse else StatusResponse(enrollment)
    ensures calls == before + [LoadContext] + if enrollment == Waitlisted && w.context.Ok? && w.noticeBuilds then [EnqueueNotice] else []
    ensures AddsNoAttend(before, calls)
  {
    KeepsHolds(w, before, LoadContext);
    calls := before + [LoadContext];
    response := StatusResponse(enrollment);
    if w.context.Err? {
      return;
    }
    match enrollment {
      case Waitlisted =>
        if w.noticeBuilds {
          KeepsHolds(w, calls, EnqueueNotice);
          calls := calls + [EnqueueNotice];
        }
      case NotEnrolled => response := PanicResponse;
      case _ =>
    }
  }

  // ---- What the traces mean ------------------------------------------------------------------

  lemma TailIsShort(w: World, p: Purchase)
    ensures var tail := CheckoutTail(w, p).0;
            && (tail == [] || p.status == Pending)
            && (p.status == Pending ==> tail == [if p.amountMinor == 0 then CompleteFree(p.id) else GetRedirectUrl(p)])
  {
  }

  /** The only place a call that is held or paid for can be in. */
  lemma HoldPosition(w: World, calls: seq<Call>, response: Response, h: int, i: int)
    requires TailBegins(w, calls, response, h) && 0 <= i < |calls|
    ensures IsPayment(calls[i]) ==> i == h + 1 && calls[i] == CheckoutTail(w, calls[h].prepared.value.purchase).0[0]
    ensures calls[i].PrepareHold? ==> i == h
  {
    hide CheckoutTail;
    TailIsShort(w, calls[h].prepared.value.purchase);
    if i < h {
      assert calls[i] == calls[..h][i];
    } else if i > h {
      assert calls[i] == calls[h + 1..][i - h - 1];
    }
  }

  /** `c` is the payment call that a pending purchase prepared by `hold` asks for. */
  predicate PaysFor(hold: Call, c: Call) {
    && hold.PrepareHold? && hold.prepared.Ok? && hold.prepared.value.Prepared?
    && hold.prepared.value.purchase.status == Pending
    && var p := hold.prepared.value.purchase;
       c == if p.amountMinor == 0 then CompleteFree(p.id) else GetRedirectUrl(p)
  }

  /**
   Free completion happens only for a pending zero-price purchase and a redirect only for a pending
   non-zero one, each for the purchase that was just prepared.
   */
  lemma {:induction false} PaymentsAreJustified(w: World, calls: seq<Call>, response: Response, i: nat)
    requires TailIsDetermined(w, calls, response) && i < |calls| && IsPayment(calls[i])
    ensures i > 0 && PaysFor(calls[i - 1], calls[i])
  {
    hide CheckoutTail;
    assert !Unprepared(calls[i]);
    var h :| TailBegins(w, calls, response, h);
    HoldPosition(w, calls, response, h, i);
    TailIsShort(w, calls[h].prepared.value.purchase);
  }

  /**
   Both handlers finish a prepared purchase alike: whichever of them produced the two traces, the same
   purchase leads to the same payment calls and the same response.
   */
  lemma {:induction false} TailsAgree(w: World, calls: seq<Call>, response: Response, i: nat, calls': seq<Call>, response': Response, i': nat)
    requires TailIsDetermined(w, calls, response) && TailIsDetermined(w, calls', response')
    requires i < |calls| && calls[i].PrepareHold? && i' < |calls'| && calls'[i'].PrepareHold?
    requires calls[i].prepared == calls'[i'].prepared && calls[i].prepared.Ok? && calls[i].prepared.value.Prepared?
    ensures calls[i + 1..] == calls'[i' + 1..] && response == response'
  {
    TailAt(w, calls, response, i);
    TailAt(w, calls', response', i');
  }

  lemma {:induction false} TailAt(w: World, calls: seq<Call>, response: Response, i: nat)
    requires TailIsDetermined(w, calls, response) && i < |calls| && calls[i].PrepareHold?
    requires calls[i].prepared.Ok? && calls[i].prepared.value.Prepared?
    ensures (calls[i + 1..], response) == CheckoutTail(w, calls[i].prepared.value.purchase)
  {
    hide CheckoutTail;
    assert !Unprepared(calls[i]);
    var h :| TailBegins(w, calls, response, h);
    HoldPosition(w, calls, response, h, i);
  }
}
