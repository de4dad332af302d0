/**
 The agent (agent.py): two compliance checks and one cycle of `run_agent`,
 which runs both checks, builds one report per check and posts each report
 once. The random draw of the firewall check and the outcome of every post
 are inputs.
 */
module Agent {

  const FirewallControl := "A.13.1 (Network)"
  const PasswordControl := "A.9.4 (Access)"

  const Pass := "PASS"
  const Fail := "FAIL"

  const FirewallUpDetails := "Firewall is active and filtering traffic."
  const FirewallDownDetails := "CRITICAL: Firewall service is DOWN."
  const PasswordDetails := "Password complexity requirements met."

  /** What a check returns: a status and a human-readable explanation. */
  datatype CheckResult = CheckResult(status: string, details: string)

  /**
   The simulated firewall check. `drawAboveTenth` stands for
   `random.random() > 0.1`, which holds nine times in ten.
   */
  function CheckFirewall(drawAboveTenth: bool): (r: CheckResult)
    ensures r.status == Pass || r.status == Fail
    ensures r.status == Pass <==> drawAboveTenth
    ensures r.details == (if r.status == Pass then FirewallUpDetails else FirewallDownDetails)
  {
    if drawAboveTenth then CheckResult(Pass, FirewallUpDetails)
    else CheckResult(Fail, FirewallDownDetails)
  }

  /** The password-policy check is a stub that always passes. */
  function CheckPasswordPolicy(): (r: CheckResult)
    ensures r.status == Pass && r.details == PasswordDetails
  {
    CheckResult(Pass, PasswordDetails)
  }

  /** One report: a check's result bound to the reporting host and the control it evaluates. */
  datatype Report = Report(hostname: string, controlId: string, status: string, details: string)
  {
    /** The JSON object posted for this report. */
    function ToJson(): (j: map<string, string>)
      ensures j.Keys == {"hostname", "control_id", "status", "details"}
      ensures j["hostname"] == hostname && j["control_id"] == controlId
      ensures j["status"] == status && j["details"] == details
    {
      map["hostname" := hostname, "control_id" := controlId, "status" := status, "details" := details]
    }
  }

  /** The payload list of one cycle: the firewall report, then the password report. */
  function CyclePayloads(hostname: string, firewall: CheckResult, password: CheckResult): (ps: seq<Report>)
    ensures |ps| == 2
    ensures ps[0] == Report(hostname, FirewallControl, firewall.status, firewall.details)
    ensures ps[1] == Report(hostname, PasswordControl, password.status, password.details)
  {
    [Report(hostname, FirewallControl, firewall.status, firewall.details),
     Report(hostname, PasswordControl, password.status, password.details)]
  }

  /** What the agent can be seen to do: run a check, post a payload, print a line. */
  datatype Event =
    | RanCheck(control: string)
    | Posted(payload: map<string, string>)
      /** "[+] Sent report: <control> -> <status>", printed once `post` has returned. */
    | SentReport(control: string, status: string)
      /** "[-] Error: Could not connect to OpenGRC Server.", printed when `post` raised. */
    | CouldNotConnect

  /** The events of one post attempt, given whether `post` returned. */
  function Attempt(p: Report, returned: bool): (t: seq<Event>) {
    [Posted(p.ToJson()), if returned then SentReport(p.controlId, p.status) else CouldNotConnect]
  }

  /**
   The send loop over `ps`: attempt number i goes to `ps[i]`, and
   `postReturns(i)` says whether that attempt returned or raised.
   */
  function SendTrace(ps: seq<Report>, postReturns: nat -> bool): (t: seq<Event>) {
    if ps == [] then []
    else SendTrace(ps[..|ps| - 1], postReturns) + Attempt(ps[|ps| - 1], postReturns(|ps| - 1))
  }

  /**
   Every payload is posted exactly once, in list order, with no retry; each
   post is followed by its own line, "sent" whenever `post` returned and
   "error" whenever it raised, and a raise does not stop later payloads.
   */
  lemma {:induction false} SendTraceShape(ps: seq<Report>, postReturns: nat -> bool)
    ensures |SendTrace(ps, postReturns)| == 2 * |ps|
    ensures forall i :: 0 <= i < |ps| ==>
      && SendTrace(ps, postReturns)[2 * i] == Posted(ps[i].ToJson())
      && SendTrace(ps, postReturns)[2 * i + 1] ==
           (if postReturns(i) then SentReport(ps[i].controlId, ps[i].status) else CouldNotConnect)
  {
    if ps != [] {
      var n := |ps| - 1;
      SendTraceShape(ps[..n], postReturns);
      var t0 := SendTrace(ps[..n], postReturns);
      var t := SendTrace(ps, postReturns);
      assert t == t0 + Attempt(ps[n], postReturns(n));
      forall i | 0 <= i < n
        ensures t[2 * i] == Posted(ps[i].ToJson())
        ensures t[2 * i + 1] == (if postReturns(i) then SentReport(ps[i].controlId, ps[i].status) else CouldNotConnect)
      {
        assert ps[..n][i] == ps[i];
        assert t[2 * i] == t0[2 * i] && t[2 * i + 1] == t0[2 * i + 1];
      }
    }
  }

  /** The payloads posted in a trace, in order. */
  function PostedPayloads(trace: seq<Event>): (posts: seq<map<string, string>>) {
    if trace == [] then []
    else PostedPayloads(trace[..|trace| - 1])
         + (if trace[|trace| - 1].Posted? then [trace[|trace| - 1].payload] else [])
  }

  lemma {:induction false} PostedPayloadsAppend(a: seq<Event>, b: seq<Event>)
    ensures PostedPayloads(a + b) == PostedPayloads(a) + PostedPayloads(b)
  {
    if b == [] {
      assert a + b == a;
    } else {
      var n := |b| - 1;
      assert (a + b)[..|a + b| - 1] == a + b[..n];
      assert (a + b)[|a + b| - 1] == b[n];
      PostedPayloadsAppend(a, b[..n]);
    }
  }

  /** The posts of the send loop are the payloads' JSON forms, one each, in order. */
  lemma {:induction false} SendTracePosts(ps: seq<Report>, postReturns: nat -> bool)
    ensures |PostedPayloads(SendTrace(ps, postReturns))| == |ps|
    ensures forall i :: 0 <= i < |ps| ==> PostedPayloads(SendTrace(ps, postReturns))[i] == ps[i].ToJson()
  {
    if ps != [] {
      var n := |ps| - 1;
      SendTracePosts(ps[..n], postReturns);
      var a := Attempt(ps[n], postReturns(n));
      PostedPayloadsAppend(SendTrace(ps[..n], postReturns), a);
      assert a[..1] == [Posted(ps[n].ToJson())] && a[..1][..0] == [];
      assert PostedPayloads(a[..1]) == [ps[n].ToJson()];
      assert PostedPayloads(a) == [ps[n].ToJson()];
      forall i | 0 <= i < n
        ensures PostedPayloads(SendTrace(ps, postReturns))[i] == ps[i].ToJson()
      {
        assert ps[..n][i] == ps[i];
      }
    }
  }

  /** The two check events that open a cycle. */
  const CheckEvents: seq<Event> := [RanCheck(FirewallControl), RanCheck(PasswordControl)]

  /** One iteration of the agent's loop: both checks, then the two payloads, one post each. */
  function CycleTrace(hostname: string, drawAboveTenth: bool, postReturns: nat -> bool): (t: seq<Event>) {
    CheckEvents + SendTrace(CyclePayloads(hostname, CheckFirewall(drawAboveTenth), CheckPasswordPolicy()), postReturns)
  }

  /**
   One cycle, event by event: both checks run first; then the firewall
   payload and the password payload are each posted once, in that order,
   each followed by its own "sent" or "error" line, whatever became of the
   other post.
   */
  lemma CycleShape(hostname: string, drawAboveTenth: bool, postReturns: nat -> bool)
    ensures var t := CycleTrace(hostname, drawAboveTenth, postReturns);
      var fw := CheckFirewall(drawAboveTenth);
      var pw := CheckPasswordPolicy();
      && |t| == 6
      && t[0] == RanCheck(FirewallControl) && t[1] == RanCheck(PasswordControl)
      && t[2] == Posted(Report(hostname, FirewallControl, fw.status, fw.details).ToJson())
      && t[3] == (if postReturns(0) then SentReport(FirewallControl, fw.status) else CouldNotConnect)
      && t[4] == Posted(Report(hostname, PasswordControl, pw.status, pw.details).ToJson())
      && t[5] == (if postReturns(1) then SentReport(PasswordControl, pw.status) else CouldNotConnect)
  {
    var ps := CyclePayloads(hostname, CheckFirewall(drawAboveTenth), CheckPasswordPolicy());
    SendTraceShape(ps, postReturns);
    var s := SendTrace(ps, postReturns);
    assert s[0] == Posted(ps[0].ToJson()) && s[2] == Posted(ps[1].ToJson());
    assert s[1] == (if postReturns(0) then SentReport(ps[0].controlId, ps[0].status) else CouldNotConnect);
    assert s[3] == (if postReturns(1) then SentReport(ps[1].controlId, ps[1].status) else CouldNotConnect);
  }

  /** Exactly two payloads are posted per cycle: the firewall report, then the password report. */
  lemma CyclePosts(hostname: string, drawAboveTenth: bool, postReturns: nat -> bool)
    ensures var fw := CheckFirewall(drawAboveTenth);
      var pw := CheckPasswordPolicy();
      PostedPayloads(CycleTrace(hostname, drawAboveTenth, postReturns)) ==
        [Report(hostname, FirewallControl, fw.status, fw.details).ToJson(),
         Report(hostname, PasswordControl, pw.status, pw.details).ToJson()]
  {
    var ps := CyclePayloads(hostname, CheckFirewall(drawAboveTenth), CheckPasswordPolicy());
    PostedPayloadsAppend(CheckEvents, SendTrace(ps, postReturns));
    assert CheckEvents[..1] == [RanCheck(FirewallControl)] && CheckEvents[..1][..0] == [];
    assert PostedPayloads(CheckEvents[..1]) == [];
    assert PostedPayloads(CheckEvents) == [];
    SendTracePosts(ps, postReturns);
  }

  /**
   `run_agent`, one pass of its `while True` body (the final sleep is left
   out): returns the events of the cycle.
   */
  method RunCycle(hostname: string, drawAboveTenth: bool, postReturns: nat -> bool) returns (trace: seq<Event>)
    ensures trace == CycleTrace(hostname, drawAboveTenth, postReturns)
    ensures |trace| == 6 && trace[..2] == CheckEvents
  {
    var firewall := CheckFirewall(drawAboveTenth);
    trace := [RanCheck(FirewallControl)];
    var password := CheckPasswordPolicy();
    trace := trace + [RanCheck(PasswordControl)];
    var payloads := CyclePayloads(hostname, firewall, password);
    for i := 0 to |payloads|
      invariant trace == CheckEvents + SendTrace(payloads[..i], postReturns)
    {
      var p := payloads[i];
      trace := trace + [Posted(p.ToJson())];
      if postReturns(i) {
        trace := trace + [SentReport(p.controlId, p.status)];
      } else {
        trace := trace + [CouldNotConnect];
      }
      assert payloads[..i + 1][..i] == payloads[..i];
    }
    assert payloads[..|payloads|] == payloads;
    CycleShape(hostname, drawAboveTenth, postReturns);
  }
}
