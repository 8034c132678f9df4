/** The lead form's submit path: a submission that passes validation
    disables the submit button, reports `form_submit`, and—once the simulated
    request completes—reports `qualified` with a six-digit claim number, shows
    that number and re-enables the button. A rejected submission shows its
    message and reports nothing. */
module Submission {
  import opened JsString
  import opened Validation
  import opened Analytics

  datatype Option<T> = None | Some(value: T)

  /** Claim numbers are `Math.floor(100000 + Math.random() * 900000)`, with
      `Math.random()` in [0, 1). */
  const MinClaimId := 100000
  const MaxClaimId := 999999

  predicate ClaimIdInRange(id: int) {
    MinClaimId <= id <= MaxClaimId
  }

  /** The button's text while the request is pending. */
  const ProcessingText := "Processing..."

  /** What a submit event leads to. */
  datatype Outcome =
    | Blocked            // the button is disabled: the browser sends no submit
    | ErrorShown(message: string)
    | Submitted(lead: Lead)

  /** The events one form reports, as complete `form_submit`/`qualified`
      pairs for the same ZIP code with a claim number in range, followed by
      a lone `form_submit` for the lead when one is pending. */
  predicate Cycles(h: seq<Event>, pending: Option<Lead>)
    decreases |h|
  {
    if pending.Some? then
      && |h| >= 1
      && h[|h| - 1] == FormSubmit(pending.value.zipCode, pending.value.householdSize)
      && Cycles(h[..|h| - 1], None)
    else
      || h == []
      || (&& |h| >= 2
          && h[|h| - 2].FormSubmit?
          && h[|h| - 1].Qualified?
          && h[|h| - 1].zipCode == h[|h| - 2].zipCode
          && ClaimIdInRange(h[|h| - 1].claimId)
          && Cycles(h[..|h| - 2], None))
  }

  /** The form, its submit button and the post-form panel. */
  class LeadForm {
    const log: EventLog
    /** `submitButton.disabled`. */
    var disabled: bool
    /** `submitButton.textContent`. */
    var buttonText: string
    /** The button text saved by the pending submission (`originalText`). */
    var savedText: string
    /** The lead captured by the pending completion callback, if any. */
    var pending: Option<Lead>
    /** The form's error banner: at most one message at a time. */
    var errorShown: Option<string>
    /** The claim number shown in the post-form panel, once there is one.
        The completion callback shows the panel and hides the form in the
        same step, so a claim shown also means the form is hidden. */
    var claimShown: Option<int>
    /** The events this form has reported, in order. */
    ghost var history: seq<Event>
    /** The controls as read by the submission now pending. */
    ghost var pendingSnapshot: Snapshot

    /** The button is disabled exactly while a submission is pending, and
        then reads `Processing...`; the pending lead is what `Validate`
        accepted from the controls of its submission; the form's events are
        paired as `Cycles` says; a claim shown is in range. */
    ghost predicate Valid()
      reads this
    {
      && (disabled <==> pending.Some?)
      && (pending.Some? ==> buttonText == ProcessingText && Validate(pendingSnapshot) == Accept(pending.value))
      && Cycles(history, pending)
      && (claimShown.Some? ==> ClaimIdInRange(claimShown.value))
    }

    constructor(log: EventLog, buttonText: string)
      ensures Valid()
      ensures this.log == log && this.buttonText == buttonText
      ensures !disabled && pending == None && errorShown == None && claimShown == None
      ensures history == []
    {
      this.log := log;
      this.buttonText := buttonText;
      savedText := buttonText;
      disabled := false;
      pending := None;
      errorShown := None;
      claimShown := None;
      history := [];
      pendingSnapshot := Snapshot([], [], [], [], [], [], false);
    }

    /** The form's `submit` listener, given what the controls hold. No submit
        event reaches it while the button is disabled or once the form has
        been hidden. */
    method Submit(s: Snapshot) returns (outcome: Outcome)
      requires Valid()
      modifies this, log
      ensures Valid()
      ensures old(disabled) || old(claimShown).Some? ==>
                outcome == Blocked && unchanged(this) && unchanged(log)
      ensures !old(disabled) && old(claimShown) == None && Validate(s).Reject? ==>
                && outcome == ErrorShown(Validate(s).message)
                && errorShown == Some(Validate(s).message)
                && log.events == old(log.events) && history == old(history)
                && disabled == old(disabled) && pending == old(pending) && buttonText == old(buttonText)
                && savedText == old(savedText) && claimShown == old(claimShown)
      ensures !old(disabled) && old(claimShown) == None && Validate(s).Accept? ==>
                var lead := Validate(s).lead;
                && outcome == Submitted(lead)
                && disabled && pending == Some(lead) && pendingSnapshot == s
                && buttonText == ProcessingText && savedText == old(buttonText)
                && log.events == old(log.events) + [FormSubmit(lead.zipCode, lead.householdSize)]
                && history == old(history) + [FormSubmit(lead.zipCode, lead.householdSize)]
                && errorShown == old(errorShown) && claimShown == old(claimShown)
    {
      if disabled || claimShown.Some? {
        return Blocked;
      }
      var verdict := Validate(s);
      match verdict {
        case Reject(message) =>
          ShowFormError(message);
          outcome := ErrorShown(message);
        case Accept(lead) =>
          StartRequest(s, lead);
          outcome := Submitted(lead);
      }
    }

    /** `showFormError`: the banner shows `message`, in place of any earlier
        one; nothing else changes. */
    method ShowFormError(message: string)
      requires Valid()
      modifies this
      ensures Valid()
      ensures errorShown == Some(message)
      ensures disabled == old(disabled) && buttonText == old(buttonText) && savedText == old(savedText)
      ensures pending == old(pending) && claimShown == old(claimShown) && history == old(history)
      ensures pendingSnapshot == old(pendingSnapshot)
    {
      errorShown := Some(message);
    }

    /** The end of the submit listener for the lead `Validate` accepted from
        the controls `s`: the button text is saved, the button disabled and
        relabelled, and `form_submit` reported with the lead's ZIP code and
        household size. */
    method StartRequest(ghost s: Snapshot, lead: Lead)
      requires Valid() && !disabled && Validate(s) == Accept(lead)
      modifies this, log
      ensures Valid()
      ensures disabled && pending == Some(lead) && pendingSnapshot == s
      ensures buttonText == ProcessingText && savedText == old(buttonText)
      ensures log.events == old(log.events) + [FormSubmit(lead.zipCode, lead.householdSize)]
      ensures history == old(history) + [FormSubmit(lead.zipCode, lead.householdSize)]
      ensures errorShown == old(errorShown) && claimShown == old(claimShown)
    {
      savedText := buttonText;
      disabled := true;
      buttonText := ProcessingText;
      var e := FormSubmit(lead.zipCode, lead.householdSize);
      log.Track(e);
      CyclesPush(history, lead);
      history := history + [e];
      pending := Some(lead);
      pendingSnapshot := s;
    }

    /** The completion callback of the pending submission, given the claim
        number it draws. The lead it reports as `qualified` is one whose
        submission passed all six checks, and the ZIP code reported is that
        submission's trimmed ZIP code. */
    method Complete(claimId: int)
      requires Valid() && pending.Some? && ClaimIdInRange(claimId)
      modifies this, log
      ensures Valid()
      ensures var zip := old(pending).value.zipCode;
              && log.events == old(log.events) + [Qualified(claimId, zip)]
              && history == old(history) + [Qualified(claimId, zip)]
      ensures forall k :: 0 <= k < CheckCount ==> Passes(old(pendingSnapshot), k)
      ensures old(pending).value.zipCode == Trim(old(pendingSnapshot).zipCode)
      ensures LeadOk(old(pending).value)
      ensures claimShown == Some(claimId)
      ensures !disabled && pending == None && buttonText == old(savedText)
      ensures savedText == old(savedText) && errorShown == old(errorShown)
    {
      var lead := pending.value;
      AcceptsIffAllPass(pendingSnapshot);
      AcceptedLeadOk(pendingSnapshot);
      claimShown := Some(claimId);
      var e := Qualified(claimId, lead.zipCode);
      log.Track(e);
      history := history + [e];
      disabled := false;
      buttonText := savedText;
      pending := None;
      assert history[..|history| - 1] == old(history);
      assert history[..|history| - 1][..|history| - 2] == history[..|history| - 2];
    }
  }

  /** A new submission extends a history with nothing pending by its
      `form_submit`, which is then the pending one. */
  lemma {:induction false} CyclesPush(h: seq<Event>, lead: Lead)
    requires Cycles(h, None)
    ensures Cycles(h + [FormSubmit(lead.zipCode, lead.householdSize)], Some(lead))
  {
    var h' := h + [FormSubmit(lead.zipCode, lead.householdSize)];
    assert h'[..|h'| - 1] == h;
  }

  /** The events of a form with nothing pending come in pairs: every even
      position holds a `form_submit`, and the next a `qualified` for the
      same ZIP code with a claim number in range. */
  lemma {:induction false} CyclesAlternate(h: seq<Event>)
    requires Cycles(h, None)
    ensures |h| % 2 == 0
    ensures forall i :: 0 <= i < |h| && i % 2 == 0 ==>
              h[i].FormSubmit? && h[i + 1].Qualified? && h[i + 1].zipCode == h[i].zipCode
              && ClaimIdInRange(h[i + 1].claimId)
    decreases |h|
  {
    if h != [] {
      var init := h[..|h| - 2];
      CyclesAlternate(init);
      forall i | 0 <= i < |h| && i % 2 == 0
        ensures h[i].FormSubmit? && h[i + 1].Qualified? && h[i + 1].zipCode == h[i].zipCode
                && ClaimIdInRange(h[i + 1].claimId)
      {
        if i < |init| {
          assert h[i] == init[i] && h[i + 1] == init[i + 1];
        }
      }
    }
  }

  /** Every `qualified` a form reports follows a `form_submit` for the same
      ZIP code: the two reports of a submission always agree on it. */
  lemma {:induction false} QualifiedFollowsSubmit(h: seq<Event>, pending: Option<Lead>, i: nat)
    requires Cycles(h, pending) && i < |h| && h[i].Qualified?
    ensures i >= 1 && h[i - 1].FormSubmit? && h[i - 1].zipCode == h[i].zipCode
  {
    var done := if pending.Some? then h[..|h| - 1] else h;
    CyclesAlternate(done);
    assert i < |done| && h[i] == done[i];
    assert i % 2 == 1;
    assert h[i - 1] == done[i - 1];
  }

  /** One submission from start to end: an accepted form is submitted, a
      second submit while it is pending is refused, and the completion draws
      claim number `claimId`. The log then holds exactly the two reports,
      for the same ZIP code. */
  method SubmissionScenario(s: Snapshot, initialText: string, claimId: int)
    requires Validate(s).Accept? && ClaimIdInRange(claimId)
  {
    var log := new EventLog();
    var form := new LeadForm(log, initialText);
    var lead := Validate(s).lead;
    var outcome := form.Submit(s);
    assert outcome == Submitted(lead) && form.disabled;
    assert log.events == [FormSubmit(lead.zipCode, lead.householdSize)];
    outcome := form.Submit(s);
    assert outcome == Blocked;
    form.Complete(claimId);
    assert log.events == [FormSubmit(lead.zipCode, lead.householdSize), Qualified(claimId, lead.zipCode)];
    assert form.claimShown == Some(claimId) && !form.disabled && form.buttonText == initialText;
    outcome := form.Submit(s);
    assert outcome == Blocked;
  }
}
