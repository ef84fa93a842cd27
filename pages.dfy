/** The resilient interaction layer every page object inherits (BasePage).
    The browser page is abstract: it logs every call made on it, keeps the values
    of the input fields, and answers each call through an oracle that is given the
    call and its position in the log. A thrown Playwright exception is a Reply
    `Threw(e)`; an operation of BasePage that propagates it returns `Raised(e)`. */
module Pages {

  type Selector = string

  /** The target state of `waitForSelector`. */
  datatype ElementState = Visible | Hidden | Attached | Detached

  /** The target state of `waitForLoadState`. */
  datatype LoadState = Load | NetworkIdle

  /** One call made on the browser page. */
  datatype Call =
    | WaitForSelector(selector: Selector, state: ElementState)
    | WaitForLoadState(load: LoadState)
    | WaitForUrl(glob: string)
    | Click(selector: Selector)
    | Fill(selector: Selector, value: string)
    | InnerText(selector: Selector)
    | IsVisible(selector: Selector)
    | Navigate(url: string)
    | Sleep(ms: nat)

  /** The identity of an exception thrown by the browser. */
  datatype Error = Error(id: nat)

  /** What the browser answers to one call: a normal return (with the text of
      `innerText` and the flag of `isVisible`), or an exception. */
  datatype Reply = Returned(text: string, flag: bool) | Threw(error: Error)

  /** The browser's behaviour: the reply to the call issued at a position of the log. */
  type Oracle = (nat, Call) -> Reply

  /** How an operation without a result ends: normally, or with an exception. */
  datatype Outcome = Completed | Raised(error: Error)

  /** How `safeGetText` ends. */
  datatype TextOutcome = GotText(text: string) | TextRaised(error: Error)

  /** The calls an operation issues, in order, and how it ends. */
  datatype Run = Run(calls: seq<Call>, outcome: Outcome)

  /** safeClick tries the click at most this many times ... */
  const MaxClickAttempts: nat := 3
  /** ... and pauses this many milliseconds after each failed attempt but the last. */
  const BackoffMs: nat := 200

  /** A reply seen as the end of an operation that propagates exceptions. */
  function OutcomeOf(r: Reply): Outcome
  {
    if r.Threw? then Raised(r.error) else Completed
  }

  /** What a call does to the input fields: a fill that returns sets the field. */
  function Effect(fields: map<Selector, string>, c: Call, r: Reply): map<Selector, string>
  {
    if c.Fill? && r.Returned? then fields[c.selector := c.value] else fields
  }

  /** The input fields after `calls` were issued from position `pos` on. */
  function Replay(fields: map<Selector, string>, respond: Oracle, pos: nat, calls: seq<Call>): map<Selector, string>
    decreases |calls|
  {
    if calls == [] then fields
    else
      var n := |calls| - 1;
      Effect(Replay(fields, respond, pos, calls[..n]), calls[n], respond(pos + n, calls[n]))
  }

  /** Issuing one more call applies its effect to the fields. */
  lemma ReplayAppend(fields: map<Selector, string>, respond: Oracle, pos: nat, calls: seq<Call>, c: Call)
    ensures Replay(fields, respond, pos, calls + [c]) ==
      Effect(Replay(fields, respond, pos, calls), c, respond(pos + |calls|, c))
  {
    assert (calls + [c])[..|calls|] == calls;
  }

  /** Issues `calls[i..]`, call `k` at position `pos + k`, and stops at the first
      one that throws, propagating its exception. */
  function IssueFrom(respond: Oracle, pos: nat, calls: seq<Call>, i: nat): Run
    requires i <= |calls|
    decreases |calls| - i
  {
    if i == |calls| then Run([], Completed)
    else
      var reply := respond(pos + i, calls[i]);
      if reply.Threw? then Run([calls[i]], Raised(reply.error))
      else
        var rest := IssueFrom(respond, pos, calls, i + 1);
        Run([calls[i]] + rest.calls, rest.outcome)
  }

  /** The straight-line operations of BasePage: issue `calls` from position `pos`
      on, stopping at the first that throws. */
  function IssueAll(respond: Oracle, pos: nat, calls: seq<Call>): Run
  {
    IssueFrom(respond, pos, calls, 0)
  }

  /** Issuing a fixed list of calls issues a prefix of it: all of it exactly when
      every call returns, and otherwise up to and including the first call that
      threw, whose exception is raised unchanged. */
  lemma {:induction false} IssueStopsAtFirstFailure(respond: Oracle, pos: nat, calls: seq<Call>, i: nat)
    requires i <= |calls|
    ensures var r := IssueFrom(respond, pos, calls, i);
      && i + |r.calls| <= |calls| && r.calls == calls[i..i + |r.calls|]
      && (forall k :: i <= k < i + |r.calls| - 1 ==> respond(pos + k, calls[k]).Returned?)
      && (r.outcome.Completed? <==>
            i + |r.calls| == |calls| && forall k :: i <= k < |calls| ==> respond(pos + k, calls[k]).Returned?)
      && (r.outcome.Raised? ==>
            |r.calls| >= 1 && respond(pos + i + |r.calls| - 1, calls[i + |r.calls| - 1]) == Threw(r.outcome.error))
    decreases |calls| - i
  {
    if i < |calls| && respond(pos + i, calls[i]).Returned? {
      IssueStopsAtFirstFailure(respond, pos, calls, i + 1);
    }
  }

  /** The glob `waitForUrlContains` waits on: the fragment between two `**`. */
  function UrlGlob(fragment: string): (g: string)
    ensures |g| == |fragment| + 4
    ensures g[..2] == "**" && g[2..|g| - 2] == fragment && g[|g| - 2..] == "**"
  {
    "**" + fragment + "**"
  }

  // ---------------------------------------------------------------
  // safeClick
  // ---------------------------------------------------------------

  /** The reply to click attempt `j` (numbered from 1) when attempt 1 is issued at
      position `base`: a pause sits between two attempts. */
  function AttemptReply(respond: Oracle, base: nat, sel: Selector, j: nat): Reply
    requires j >= 1
  {
    respond(base + 2 * (j - 1), Click(sel))
  }

  /** The reply to safeClick's click attempt `j` when safeClick starts at `pos`. */
  function ClickReply(respond: Oracle, pos: nat, sel: Selector, j: nat): Reply
    requires j >= 1
  {
    AttemptReply(respond, pos + 2, sel, j)
  }

  /** The click attempts from `attempt` on, attempt 1 being issued at `base`:
      stop at the first click that returns; after a failure pause `BackoffMs` and
      retry, except after the last attempt, whose exception is raised. */
  function RetryRun(respond: Oracle, base: nat, sel: Selector, attempt: nat): Run
    requires 1 <= attempt <= MaxClickAttempts
    decreases MaxClickAttempts - attempt
  {
    var reply := AttemptReply(respond, base, sel, attempt);
    if reply.Returned? then Run([Click(sel)], Completed)
    else if attempt == MaxClickAttempts then Run([Click(sel)], Raised(reply.error))
    else
      var rest := RetryRun(respond, base, sel, attempt + 1);
      Run([Click(sel), Sleep(BackoffMs)] + rest.calls, rest.outcome)
  }

  /** The whole of safeClick issued from position `pos`: wait VISIBLE, wait
      ATTACHED, then the click attempts; a failed wait is propagated. */
  function SafeClickRun(respond: Oracle, pos: nat, sel: Selector): Run
  {
    var visible := respond(pos, WaitForSelector(sel, Visible));
    if visible.Threw? then Run([WaitForSelector(sel, Visible)], Raised(visible.error))
    else
      var attached := respond(pos + 1, WaitForSelector(sel, Attached));
      if attached.Threw? then
        Run([WaitForSelector(sel, Visible), WaitForSelector(sel, Attached)], Raised(attached.error))
      else
        var clicks := RetryRun(respond, pos + 2, sel, 1);
        Run([WaitForSelector(sel, Visible), WaitForSelector(sel, Attached)] + clicks.calls, clicks.outcome)
  }

  /** `k` click attempts with one pause between each two consecutive ones. */
  function AttemptCalls(sel: Selector, k: nat): seq<Call>
    requires k >= 1
  {
    if k == 1 then [Click(sel)] else [Click(sel), Sleep(BackoffMs)] + AttemptCalls(sel, k - 1)
  }

  function CountClicks(calls: seq<Call>): nat
  {
    if calls == [] then 0 else (if calls[0].Click? then 1 else 0) + CountClicks(calls[1..])
  }

  function CountSleeps(calls: seq<Call>): nat
  {
    if calls == [] then 0 else (if calls[0].Sleep? then 1 else 0) + CountSleeps(calls[1..])
  }

  lemma {:induction false} CountsAppend(a: seq<Call>, b: seq<Call>)
    ensures CountClicks(a + b) == CountClicks(a) + CountClicks(b)
    ensures CountSleeps(a + b) == CountSleeps(a) + CountSleeps(b)
  {
    if a == [] {
      assert a + b == b;
    } else {
      CountsAppend(a[1..], b);
      assert (a + b)[1..] == a[1..] + b;
    }
  }

  /** `k` attempts alternate click, pause, click, ..., click: clicks at the even
      positions, pauses of `BackoffMs` at the odd ones. */
  lemma {:induction false} AttemptCallsAlternate(sel: Selector, k: nat)
    requires k >= 1
    ensures |AttemptCalls(sel, k)| == 2 * k - 1
    ensures forall i :: 0 <= i < 2 * k - 1 ==>
      AttemptCalls(sel, k)[i] == if i % 2 == 0 then Click(sel) else Sleep(BackoffMs)
  {
    if k > 1 {
      AttemptCallsAlternate(sel, k - 1);
      var s := AttemptCalls(sel, k);
      forall i | 2 <= i < 2 * k - 1
        ensures s[i] == if i % 2 == 0 then Click(sel) else Sleep(BackoffMs)
      {
        assert s[i] == AttemptCalls(sel, k - 1)[i - 2];
      }
    }
  }

  /** `k` attempts hold exactly `k` clicks and `k - 1` pauses. */
  lemma {:induction false} AttemptCallsCounts(sel: Selector, k: nat)
    requires k >= 1
    ensures CountClicks(AttemptCalls(sel, k)) == k
    ensures CountSleeps(AttemptCalls(sel, k)) == k - 1
  {
    if k == 1 {
      assert AttemptCalls(sel, 1)[1..] == [];
    } else {
      var s := AttemptCalls(sel, k);
      AttemptCallsCounts(sel, k - 1);
      assert s[1..][1..] == AttemptCalls(sel, k - 1);
    }
  }

  /** Whatever the browser answers, the retry loop is the alternation of as many
      attempts as it made, and it makes at least one and no more than are left. */
  lemma {:induction false} RetryRunIsAttempts(respond: Oracle, base: nat, sel: Selector, attempt: nat)
    requires 1 <= attempt <= MaxClickAttempts
    ensures var r := RetryRun(respond, base, sel, attempt);
      && 1 <= CountClicks(r.calls) <= MaxClickAttempts - attempt + 1
      && r.calls == AttemptCalls(sel, CountClicks(r.calls))
    decreases MaxClickAttempts - attempt
  {
    var r := RetryRun(respond, base, sel, attempt);
    if AttemptReply(respond, base, sel, attempt).Returned? || attempt == MaxClickAttempts {
      AttemptCallsCounts(sel, 1);
    } else {
      RetryRunIsAttempts(respond, base, sel, attempt + 1);
      var rest := RetryRun(respond, base, sel, attempt + 1);
      var k := CountClicks(rest.calls);
      AttemptCallsCounts(sel, k);
      AttemptCallsCounts(sel, k + 1);
      assert r.calls == AttemptCalls(sel, k + 1);
    }
  }

  /** When attempt `k` is the first whose click returns, the loop makes exactly the
      attempts from `attempt` to `k`, pausing between them, and completes. */
  lemma {:induction false} RetrySucceedsOn(respond: Oracle, base: nat, sel: Selector, attempt: nat, k: nat)
    requires 1 <= attempt <= k <= MaxClickAttempts
    requires forall j: nat :: attempt <= j < k ==> AttemptReply(respond, base, sel, j).Threw?
    requires AttemptReply(respond, base, sel, k).Returned?
    ensures RetryRun(respond, base, sel, attempt) == Run(AttemptCalls(sel, k - attempt + 1), Completed)
    decreases k - attempt
  {
    if attempt < k {
      assert AttemptReply(respond, base, sel, attempt).Threw?;
      RetrySucceedsOn(respond, base, sel, attempt + 1, k);
    }
  }

  /** When every remaining attempt throws, the loop makes all of them and raises
      the exception of the last one. */
  lemma {:induction false} RetryExhausted(respond: Oracle, base: nat, sel: Selector, attempt: nat)
    requires 1 <= attempt <= MaxClickAttempts
    requires forall j: nat :: attempt <= j <= MaxClickAttempts ==> AttemptReply(respond, base, sel, j).Threw?
    ensures RetryRun(respond, base, sel, attempt) == Run(
      AttemptCalls(sel, MaxClickAttempts - attempt + 1),
      Raised(AttemptReply(respond, base, sel, MaxClickAttempts).error))
    decreases MaxClickAttempts - attempt
  {
    assert AttemptReply(respond, base, sel, attempt).Threw?;
    if attempt < MaxClickAttempts {
      RetryExhausted(respond, base, sel, attempt + 1);
    }
  }

  /** safeClick waits VISIBLE and then ATTACHED before any click, makes at most
      `MaxClickAttempts` attempts, and pauses exactly once between each two. */
  lemma SafeClickShape(respond: Oracle, pos: nat, sel: Selector)
    ensures var r := SafeClickRun(respond, pos, sel);
      && |r.calls| >= 1 && r.calls[0] == WaitForSelector(sel, Visible)
      && (forall i :: 0 <= i < |r.calls| && r.calls[i].Click? ==> 2 <= i && r.calls[1] == WaitForSelector(sel, Attached))
      && CountClicks(r.calls) <= MaxClickAttempts
      && (CountClicks(r.calls) > 0 ==> |r.calls| > 2 && r.calls[2..] == AttemptCalls(sel, CountClicks(r.calls)))
      && CountSleeps(r.calls) == if CountClicks(r.calls) == 0 then 0 else CountClicks(r.calls) - 1
  {
    var waits := [WaitForSelector(sel, Visible), WaitForSelector(sel, Attached)];
    assert CountClicks(waits) == 0 && CountSleeps(waits) == 0 by {
      var tail := [WaitForSelector(sel, Attached)];
      assert tail[1..] == [];
      assert CountClicks(tail) == 0 && CountSleeps(tail) == 0;
      assert waits[1..] == tail;
    }
    var r := SafeClickRun(respond, pos, sel);
    if respond(pos, WaitForSelector(sel, Visible)).Threw? {
      assert r.calls[1..] == [];
    } else if respond(pos + 1, WaitForSelector(sel, Attached)).Threw? {
      assert r.calls == waits;
    } else {
      var clicks := RetryRun(respond, pos + 2, sel, 1);
      RetryRunIsAttempts(respond, pos + 2, sel, 1);
      CountsAppend(waits, clicks.calls);
      AttemptCallsCounts(sel, CountClicks(clicks.calls));
      assert r.calls[2..] == clicks.calls;
    }
  }

  /** If the waits pass and attempt `k` is the first click that returns, safeClick
      issues the two waits and `k` attempts with `k - 1` pauses, and completes. */
  lemma SafeClickSucceedsOn(respond: Oracle, pos: nat, sel: Selector, k: nat)
    requires 1 <= k <= MaxClickAttempts
    requires respond(pos, WaitForSelector(sel, Visible)).Returned?
    requires respond(pos + 1, WaitForSelector(sel, Attached)).Returned?
    requires forall j: nat :: 1 <= j < k ==> ClickReply(respond, pos, sel, j).Threw?
    requires ClickReply(respond, pos, sel, k).Returned?
    ensures SafeClickRun(respond, pos, sel) ==
      Run([WaitForSelector(sel, Visible), WaitForSelector(sel, Attached)] + AttemptCalls(sel, k), Completed)
  {
    var base := pos + 2;
    forall j: nat | 1 <= j < k
      ensures AttemptReply(respond, base, sel, j).Threw?
    {
      assert ClickReply(respond, pos, sel, j).Threw?;
    }
    RetrySucceedsOn(respond, pos + 2, sel, 1, k);
  }

  /** If the waits pass and all three clicks throw, safeClick issues the two waits
      and three attempts with two pauses, and raises the third attempt's exception,
      not the first two. */
  lemma SafeClickExhausted(respond: Oracle, pos: nat, sel: Selector)
    requires respond(pos, WaitForSelector(sel, Visible)).Returned?
    requires respond(pos + 1, WaitForSelector(sel, Attached)).Returned?
    requires forall j: nat :: 1 <= j <= MaxClickAttempts ==> ClickReply(respond, pos, sel, j).Threw?
    ensures SafeClickRun(respond, pos, sel) ==
      Run([WaitForSelector(sel, Visible), WaitForSelector(sel, Attached)] + AttemptCalls(sel, MaxClickAttempts),
          Raised(ClickReply(respond, pos, sel, MaxClickAttempts).error))
  {
    var base := pos + 2;
    forall j: nat | 1 <= j <= MaxClickAttempts
      ensures AttemptReply(respond, base, sel, j).Threw?
    {
      assert ClickReply(respond, pos, sel, j).Threw?;
    }
    RetryExhausted(respond, pos + 2, sel, 1);
  }

  // ---------------------------------------------------------------
  // safeType
  // ---------------------------------------------------------------

  /** The calls safeType issues when nothing throws: clear the field, then fill it. */
  function SafeTypeCalls(sel: Selector, text: string): seq<Call>
  {
    [WaitForSelector(sel, Visible), WaitForSelector(sel, Attached), Fill(sel, ""), Fill(sel, text)]
  }

  /** safeType completes exactly when its two waits and its two fills all return,
      and then it has issued all four calls in order. */
  lemma SafeTypeCompletes(respond: Oracle, pos: nat, sel: Selector, text: string)
    ensures var calls := SafeTypeCalls(sel, text);
      var r := IssueAll(respond, pos, calls);
      r.outcome.Completed? <==> r.calls == calls && forall k :: 0 <= k < 4 ==> respond(pos + k, calls[k]).Returned?
  {
    IssueStopsAtFirstFailure(respond, pos, SafeTypeCalls(sel, text), 0);
  }

  /** When safeType completes, the field holds exactly `text`, whatever it held
      before, and no other field changed: it clears and sets, it does not append. */
  lemma SafeTypeSetsField(respond: Oracle, pos: nat, sel: Selector, text: string, fields: map<Selector, string>)
    requires IssueAll(respond, pos, SafeTypeCalls(sel, text)).outcome.Completed?
    ensures Replay(fields, respond, pos, SafeTypeCalls(sel, text)) == fields[sel := text]
  {
    var calls := SafeTypeCalls(sel, text);
    SafeTypeCompletes(respond, pos, sel, text);
    assert respond(pos + 2, calls[2]).Returned? && respond(pos + 3, calls[3]).Returned?;
    ReplayAppend(fields, respond, pos, [], calls[0]);
    ReplayAppend(fields, respond, pos, calls[..1], calls[1]);
    ReplayAppend(fields, respond, pos, calls[..2], calls[2]);
    ReplayAppend(fields, respond, pos, calls[..3], calls[3]);
    assert [] + [calls[0]] == calls[..1];
    assert calls[..1] + [calls[1]] == calls[..2];
    assert calls[..2] + [calls[2]] == calls[..3];
    assert calls[..3] + [calls[3]] == calls;
  }

  // ---------------------------------------------------------------
  // The page
  // ---------------------------------------------------------------

  /** The browser page as the page objects see it. */
  class Page {
    /** Every call made on the page so far, oldest first. */
    var trace: seq<Call>
    /** The current value of each input field. */
    var fields: map<Selector, string>
    /** How the browser answers. */
    const respond: Oracle

    constructor (respond: Oracle, fields: map<Selector, string>)
      ensures this.respond == respond && this.fields == fields && trace == []
    {
      this.respond := respond;
      this.fields := fields;
      trace := [];
    }

    /** Makes one call on the page. */
    method Issue(c: Call) returns (r: Reply)
      modifies this
      ensures trace == old(trace) + [c]
      ensures r == respond(|old(trace)|, c)
      ensures fields == Effect(old(fields), c, r)
    {
      r := respond(|trace|, c);
      fields := Effect(fields, c, r);
      trace := trace + [c];
    }

    /** `waitForTimeout`: a pause, logged and never failing. */
    method Pause(ms: nat)
      modifies this
      ensures trace == old(trace) + [Sleep(ms)] && fields == old(fields)
    {
      trace := trace + [Sleep(ms)];
    }
  }

  /** The base of every page object: its operations act on one page. */
  class BasePage {
    const page: Page

    constructor (page: Page)
      ensures this.page == page
    {
      this.page := page;
    }

    /** One `waitForSelector` with state VISIBLE; no retry. */
    method WaitForVisible(sel: Selector) returns (o: Outcome)
      modifies page
      ensures page.trace == old(page.trace) + [WaitForSelector(sel, Visible)] && page.fields == old(page.fields)
      ensures o == OutcomeOf(page.respond(|old(page.trace)|, WaitForSelector(sel, Visible)))
    {
      var r := page.Issue(WaitForSelector(sel, Visible));
      o := OutcomeOf(r);
    }

    /** One `waitForSelector` with state HIDDEN; no retry. */
    method WaitForHidden(sel: Selector) returns (o: Outcome)
      modifies page
      ensures page.trace == old(page.trace) + [WaitForSelector(sel, Hidden)] && page.fields == old(page.fields)
      ensures o == OutcomeOf(page.respond(|old(page.trace)|, WaitForSelector(sel, Hidden)))
    {
      var r := page.Issue(WaitForSelector(sel, Hidden));
      o := OutcomeOf(r);
    }

    /** One `waitForSelector` with state ATTACHED; no retry. */
    method WaitForAttached(sel: Selector) returns (o: Outcome)
      modifies page
      ensures page.trace == old(page.trace) + [WaitForSelector(sel, Attached)] && page.fields == old(page.fields)
      ensures o == OutcomeOf(page.respond(|old(page.trace)|, WaitForSelector(sel, Attached)))
    {
      var r := page.Issue(WaitForSelector(sel, Attached));
      o := OutcomeOf(r);
    }

    /** One `waitForSelector` with state DETACHED; no retry. */
    method WaitForDetached(sel: Selector) returns (o: Outcome)
      modifies page
      ensures page.trace == old(page.trace) + [WaitForSelector(sel, Detached)] && page.fields == old(page.fields)
      ensures o == OutcomeOf(page.respond(|old(page.trace)|, WaitForSelector(sel, Detached)))
    {
      var r := page.Issue(WaitForSelector(sel, Detached));
      o := OutcomeOf(r);
    }

    /** One `waitForLoadState(LOAD)`. */
    method WaitForPageLoad() returns (o: Outcome)
      modifies page
      ensures page.trace == old(page.trace) + [WaitForLoadState(Load)] && page.fields == old(page.fields)
      ensures o == OutcomeOf(page.respond(|old(page.trace)|, WaitForLoadState(Load)))
    {
      var r := page.Issue(WaitForLoadState(Load));
      o := OutcomeOf(r);
    }

    /** One `waitForLoadState(NETWORKIDLE)`. */
    method WaitForNetworkIdle() returns (o: Outcome)
      modifies page
      ensures page.trace == old(page.trace) + [WaitForLoadState(NetworkIdle)] && page.fields == old(page.fields)
      ensures o == OutcomeOf(page.respond(|old(page.trace)|, WaitForLoadState(NetworkIdle)))
    {
      var r := page.Issue(WaitForLoadState(NetworkIdle));
      o := OutcomeOf(r);
    }

    /** One `waitForURL` on the glob `**fragment**`. */
    method WaitForUrlContains(fragment: string) returns (o: Outcome)
      modifies page
      ensures page.trace == old(page.trace) + [WaitForUrl(UrlGlob(fragment))] && page.fields == old(page.fields)
      ensures o == OutcomeOf(page.respond(|old(page.trace)|, WaitForUrl(UrlGlob(fragment))))
    {
      var r := page.Issue(WaitForUrl(UrlGlob(fragment)));
      o := OutcomeOf(r);
    }

    /** Wait VISIBLE and ATTACHED, then click with up to three attempts, pausing
        between failed ones and rethrowing the last failure. */
    method SafeClick(sel: Selector) returns (o: Outcome)
      modifies page
      ensures var run := SafeClickRun(page.respond, |old(page.trace)|, sel);
        page.trace == old(page.trace) + run.calls && o == run.outcome
      ensures page.fields == old(page.fields)
    {
      ghost var pos := |page.trace|;
      o := WaitForVisible(sel);
      if o.Raised? { return; }
      o := WaitForAttached(sel);
      if o.Raised? { return; }
      ghost var base := pos + 2;
      ghost var clicks := RetryRun(page.respond, base, sel, 1);
      assert SafeClickRun(page.respond, pos, sel).calls == [WaitForSelector(sel, Visible), WaitForSelector(sel, Attached)] + clicks.calls;
      var attempt := 1;
      while true
        invariant 1 <= attempt <= MaxClickAttempts
        invariant |page.trace| == base + 2 * (attempt - 1)
        invariant page.fields == old(page.fields)
        invariant var rest := RetryRun(page.respond, base, sel, attempt);
          old(page.trace) + SafeClickRun(page.respond, pos, sel).calls == page.trace + rest.calls
          && rest.outcome == clicks.outcome
        decreases MaxClickAttempts - attempt
      {
        var r := page.Issue(Click(sel));
        if r.Returned? {
          return Completed;
        }
        if attempt == MaxClickAttempts {
          return Raised(r.error);
        }
        page.Pause(BackoffMs);
        attempt := attempt + 1;
      }
    }

    /** Wait VISIBLE and ATTACHED, fill "" and then fill `text`. */
    method SafeType(sel: Selector, text: string) returns (o: Outcome)
      modifies page
      ensures var run := IssueAll(page.respond, |old(page.trace)|, SafeTypeCalls(sel, text));
        page.trace == old(page.trace) + run.calls && o == run.outcome
        && page.fields == Replay(old(page.fields), page.respond, |old(page.trace)|, run.calls)
    {
      ghost var pos := |page.trace|;
      ghost var calls := SafeTypeCalls(sel, text);
      ghost var f0 := page.fields;
      ghost var run := IssueAll(page.respond, pos, calls);
      o := WaitForVisible(sel);
      ReplayAppend(f0, page.respond, pos, [], calls[0]);
      assert [] + [calls[0]] == calls[..1];
      if o.Raised? {
        assert run == Run(calls[..1], o);
        return;
      }
      o := WaitForAttached(sel);
      ReplayAppend(f0, page.respond, pos, calls[..1], calls[1]);
      assert calls[..1] + [calls[1]] == calls[..2];
      ghost var run1 := IssueFrom(page.respond, pos, calls, 1);
      assert run == Run([calls[0]] + run1.calls, run1.outcome);
      if o.Raised? {
        assert run1 == Run([calls[1]], o);
        return;
      }
      var r := page.Issue(Fill(sel, ""));
      ReplayAppend(f0, page.respond, pos, calls[..2], calls[2]);
      assert calls[..2] + [calls[2]] == calls[..3];
      ghost var run2 := IssueFrom(page.respond, pos, calls, 2);
      assert run1 == Run([calls[1]] + run2.calls, run2.outcome);
      assert page.trace == old(page.trace) + calls[..3];
      assert page.fields == Replay(f0, page.respond, pos, calls[..3]);
      if r.Threw? {
        assert run2 == Run([calls[2]], Raised(r.error));
        assert run.calls == calls[..3];
        return Raised(r.error);
      }
      r := page.Issue(Fill(sel, text));
      ReplayAppend(f0, page.respond, pos, calls[..3], calls[3]);
      assert calls[..3] + [calls[3]] == calls;
      assert page.trace == old(page.trace) + calls;
      assert r == page.respond(pos + 3, calls[3]);
      o := OutcomeOf(r);
      ghost var run3 := IssueFrom(page.respond, pos, calls, 3);
      ghost var run4 := IssueFrom(page.respond, pos, calls, 4);
      assert run4 == Run([], Completed);
      assert run2 == Run([calls[2]] + run3.calls, run3.outcome);
      assert run3 == Run([calls[3]], o);
      assert run.calls == calls && run.outcome == o;
    }

    /** Wait VISIBLE, then read the element's inner text. */
    method SafeGetText(sel: Selector) returns (t: TextOutcome)
      modifies page
      ensures var visible := page.respond(|old(page.trace)|, WaitForSelector(sel, Visible));
        var read := page.respond(|old(page.trace)| + 1, InnerText(sel));
        && page.fields == old(page.fields)
        && (visible.Threw? ==> page.trace == old(page.trace) + [WaitForSelector(sel, Visible)] && t == TextRaised(visible.error))
        && (visible.Returned? ==>
              && page.trace == old(page.trace) + [WaitForSelector(sel, Visible), InnerText(sel)]
              && t == if read.Threw? then TextRaised(read.error) else GotText(read.text))
    {
      var o := WaitForVisible(sel);
      if o.Raised? { return TextRaised(o.error); }
      var r := page.Issue(InnerText(sel));
      t := if r.Threw? then TextRaised(r.error) else GotText(r.text);
    }

    /** The locator's visibility, or false when the lookup throws; never raises. */
    method SafeIsVisible(sel: Selector) returns (b: bool)
      modifies page
      ensures page.trace == old(page.trace) + [IsVisible(sel)] && page.fields == old(page.fields)
      ensures var r := page.respond(|old(page.trace)|, IsVisible(sel));
        b <==> r.Returned? && r.flag
    {
      var r := page.Issue(IsVisible(sel));
      if r.Threw? {
        b := false;
      } else {
        b := r.flag;
      }
    }

    /** Navigate, then wait for the LOAD state. */
    method NavigateTo(url: string) returns (o: Outcome)
      modifies page
      ensures page.fields == old(page.fields)
      ensures var nav := page.respond(|old(page.trace)|, Navigate(url));
        && (nav.Threw? ==> page.trace == old(page.trace) + [Navigate(url)] && o == Raised(nav.error))
        && (nav.Returned? ==>
              && page.trace == old(page.trace) + [Navigate(url), WaitForLoadState(Load)]
              && o == OutcomeOf(page.respond(|old(page.trace)| + 1, WaitForLoadState(Load))))
    {
      var r := page.Issue(Navigate(url));
      if r.Threw? { return Raised(r.error); }
      o := WaitForPageLoad();
    }
  }
}
