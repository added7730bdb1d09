/** The Yices-specific part of the command driver (Solver_yices): the text each command
    sends and how each reply becomes a response. The generic checks and bookkeeping of the
    superclass are not modelled; their verdict on the command arrives as `status`. The
    transport is a list of replies, one per command sent, in order. */
module Solver {
  import opened Wrappers
  import opened Syntax
  import opened Text
  import opened Translator
  import TranslatorFacts
  import Terms

  /** The text by which Yices marks a reply as reporting an error. */
  const ErrorIndication: string := "Error"

  /** The responses a command can produce. */
  datatype Response =
    | Success
    | SuccessExit
    | Sat
    | Unsat
    | Unknown
    | Unsupported
    | ContinuedExecution
    | StringValue(value: string)
    | Error(message: string, pos: Position)
  {
    predicate IsOK() {
      Success?
    }

    predicate IsError() {
      Error?
    }
  }

  /** What the transport gives back for one command: the text Yices wrote up to its
      prompt, or an I/O failure with its message. */
  datatype Reply = Heard(text: string) | IOFault(message: string)

  /** A reply that arrived and does not report an error. */
  predicate Clean(reply: Reply) {
    reply.Heard? && !Contains(reply.text, ErrorIndication)
  }

  /** The error response for a reply that is not clean: the reply text itself when Yices
      reported an error, the command's failure text and the I/O message otherwise. */
  function Complaint(prefix: string, reply: Reply): (r: Response)
    requires !Clean(reply)
    ensures r.IsError() && r.pos == None
  {
    match reply
    case Heard(text) => Error(text, None)
    case IOFault(message) => Error(prefix + message, None)
  }

  /** The response of a command and the commands it wrote to the transport, in order. */
  datatype Outcome = Outcome(response: Response, sent: seq<string>)

  // ---------------------------------------------------------------------------------
  // exit

  /** `exit` writes `(exit)`, then closes the process, which may itself fail. */
  function Exit(reply: Reply, closeFault: Option<string>): (r: Outcome)
    ensures r.sent == ["(exit)\n"]
    ensures r.response.SuccessExit? <==> Clean(reply) && closeFault.None?
    ensures !r.response.SuccessExit? ==> r.response.IsError()
  {
    var response :=
      match reply
      case IOFault(m) => Error("Failed to exit Yices process: " + m, None)
      case Heard(s) =>
        if closeFault.Some? then Error("Failed to exit Yices process: " + closeFault.value, None)
        else if Contains(s, ErrorIndication) then Error(s, None)
        else SuccessExit;
    Outcome(response, ["(exit)\n"])
  }

  // ---------------------------------------------------------------------------------
  // assert

  /** `assert` sends `(assert+ e )` when the superclass accepts it and the expression
      translates; a translation failure sends nothing. */
  function AssertExpr(status: Response, e: Expr, reply: Reply): (r: Outcome)
    ensures !status.IsOK() ==> r == Outcome(status, [])
    ensures status.IsOK() && !Supported(e) ==> r.sent == [] && r.response.IsError()
    ensures status.IsOK() && Translate(e).Ok? ==> r.sent == ["(assert+ " + Translate(e).value + " )\n"]
    ensures status.IsOK() ==> (r.response.IsOK() <==> Supported(e) && Clean(reply))
    ensures status.IsOK() && Supported(e) && !Clean(reply) ==>
      r.response == Complaint("Yices assert command failed: ", reply)
  {
    TranslatorFacts.TranslateSucceedsIffSupported(e);
    if !status.IsOK() then Outcome(status, [])
    else
      match Translate(e)
      case Err(f) => Outcome(Error("Yices assert command failed: " + f.message, None), [])
      case Ok(t) =>
        var sent := ["(assert+ " + t + " )\n"];
        match reply
        case IOFault(m) => Outcome(Error("Yices assert command failed: " + m, None), sent)
        case Heard(s) =>
          if Contains(s, ErrorIndication) then Outcome(Error(s, None), sent) else Outcome(status, sent)
  }

  // ---------------------------------------------------------------------------------
  // check-sat and the status it leaves behind

  /** The verdict read from a clean `check` reply: "unsat" is looked for before "sat". */
  function Verdict(text: string): (r: Response)
    ensures r == Sat || r == Unsat || r == Unknown
  {
    if Contains(text, "unsat") then Unsat else if Contains(text, "sat") then Sat else Unknown
  }

  /** A reply mentioning "unsat" is never read as sat, although it contains "sat"; and a
      reply is unknown exactly when it mentions neither. */
  lemma VerdictPrecedence(text: string)
    ensures Verdict(text) == Unsat <==> Contains(text, "unsat")
    ensures Verdict(text) == Sat <==> Contains(text, "sat") && !Contains(text, "unsat")
    ensures Verdict(text) == Unknown <==> !Contains(text, "sat")
  {
    if Contains(text, "unsat") {
      UnsatContainsSat(text);
    }
  }

  /** A check's response, what it sent and the verdict kept for `get-info :status`. */
  datatype CheckOutcome = CheckOutcome(response: Response, sent: seq<string>, last: Option<Response>)

  /** `check-sat` sends `(check)` unless the superclass reports an error, and keeps the
      verdict of a clean reply. The kept verdict is a field of the superclass, whose own
      `check_sat` runs first; `last` is its value after that call, and an error leaves it so. */
  function CheckSat(status: Response, reply: Reply, last: Option<Response>): (r: CheckOutcome)
    ensures status.IsError() ==> r == CheckOutcome(status, [], last)
    ensures !status.IsError() ==> r.sent == ["(check)\r\n"]
    ensures !status.IsError() && Clean(reply) ==>
      r.response == Verdict(reply.text) && r.last == Some(r.response)
    ensures !status.IsError() && !Clean(reply) ==> r.response.IsError() && r.last == last
  {
    if status.IsError() then CheckOutcome(status, [], last)
    else
      var sent := ["(check)\r\n"];
      match reply
      case IOFault(_) => CheckOutcome(Error("Failed to check-sat", None), sent, last)
      case Heard(s) =>
        if Contains(s, ErrorIndication) then CheckOutcome(Error(s, None), sent, last)
        else
          var v := Verdict(s);
          CheckOutcome(v, sent, Some(v))
  }

  /** `get-info`, answered without contacting Yices; `:status` gives the kept verdict, or
      unsupported before any check. The authors and version texts come from the library's
      configuration. */
  function GetInfo(key: string, last: Option<Response>, authors: string, version: string): (r: Response)
    ensures key == ":status" ==> r == (if last.Some? then last.value else Unsupported)
    ensures key == ":name" ==> r == StringValue("yices")
    ensures key != ":status" ==> !r.IsError()
  {
    if key == ":error-behavior" then ContinuedExecution
    else if key == ":status" then (if last.None? then Unsupported else last.value)
    else if key == ":all-statistics" then Unsupported
    else if key == ":reason-unknown" then Unsupported
    else if key == ":authors" then StringValue(authors)
    else if key == ":version" then StringValue(version)
    else if key == ":name" then StringValue("yices")
    else Unsupported
  }

  /** After a check, `get-info :status` reports that check's verdict when its reply was
      clean, and otherwise what it would have reported once the superclass's own check-sat
      had run. */
  lemma StatusReportsLastCheck(status: Response, reply: Reply, last: Option<Response>, authors: string, version: string)
    ensures var c := CheckSat(status, reply, last);
      && (!status.IsError() && Clean(reply) ==> GetInfo(":status", c.last, authors, version) == c.response)
      && (!(!status.IsError() && Clean(reply)) ==>
            GetInfo(":status", c.last, authors, version) == GetInfo(":status", last, authors, version))
      && (!status.IsError() && Clean(reply) ==> c.response == Sat || c.response == Unsat || c.response == Unknown)
  {
  }

  // ---------------------------------------------------------------------------------
  // set-logic

  /** `set-logic` when the superclass accepts it: if a logic was already set before the
      call, it fails with "Logic is already set" unless `relax` is on, in which case it
      sends `(reset)`; otherwise it sends nothing. */
  function SetLogic(logicWasSet: bool, relax: bool, status: Response, reply: Reply, pos: Position): (r: Outcome)
    ensures !status.IsOK() ==> r == Outcome(status, [])
    ensures status.IsOK() && logicWasSet && !relax ==> r == Outcome(Error("Logic is already set", None), [])
    ensures status.IsOK() && !logicWasSet ==> r == Outcome(status, [])
    ensures r.sent != [] <==> status.IsOK() && logicWasSet && relax
    ensures r.sent != [] ==> r.sent == ["(reset)\n"] && (r.response == status <==> Clean(reply))
    ensures r.sent != [] && !Clean(reply) ==> r.response.IsError()
    ensures r.sent != [] && !Clean(reply) && reply.Heard? ==> r.response == Error(reply.text, pos)
    ensures r.sent != [] && reply.IOFault? ==> r.response == Complaint("set_logic command failed: ", reply)
  {
    if !status.IsOK() then Outcome(status, [])
    else if !logicWasSet then Outcome(status, [])
    else if !relax then Outcome(Error("Logic is already set", None), [])
    else
      var sent := ["(reset)\n"];
      match reply
      case IOFault(m) => Outcome(Error("set_logic command failed: " + m, None), sent)
      case Heard(s) =>
        if Contains(s, ErrorIndication) then Outcome(Error(s, pos), sent) else Outcome(status, sent)
  }

  // ---------------------------------------------------------------------------------
  // push and pop

  /** What sending `command` for up to n steps may leave behind: one copy of the command per
      step sent and, stopping at the first reply that is not clean, that reply's complaint;
      success, after all n steps, exactly when all n replies are clean. A negative count sends
      nothing. */
  predicate SentUntilFirstFailure(command: string, failPrefix: string, n: int, replies: seq<Reply>,
                                  response: Response, sent: seq<string>)
    requires n <= |replies|
  {
    && |sent| <= (if n < 0 then 0 else n)
    && (forall i | 0 <= i < |sent| :: sent[i] == command)
    && (response.IsOK() <==> forall i | 0 <= i < n :: Clean(replies[i]))
    && (response.IsOK() ==> response == Success && |sent| == (if n < 0 then 0 else n))
    && (!response.IsOK() ==>
          && |sent| >= 1
          && (forall i | 0 <= i < |sent| - 1 :: Clean(replies[i]))
          && !Clean(replies[|sent| - 1])
          && response == Complaint(failPrefix, replies[|sent| - 1]))
  }

  /** Sends `command` once per requested step, stopping at the first reply that is not
      clean. Steps already sent stay in effect in Yices when a later one fails. */
  method SendRepeatedly(command: string, failPrefix: string, n: int, replies: seq<Reply>)
    returns (response: Response, sent: seq<string>)
    requires n <= |replies|
    ensures SentUntilFirstFailure(command, failPrefix, n, replies, response, sent)
  {
    sent := [];
    var i := 0;
    while i < n
      invariant 0 <= i <= (if n < 0 then 0 else n)
      invariant |sent| == i
      invariant forall k | 0 <= k < i :: sent[k] == command && Clean(replies[k])
    {
      sent := sent + [command];
      var reply := replies[i];
      if !Clean(reply) {
        response := Complaint(failPrefix, reply);
        return;
      }
      i := i + 1;
    }
    response := Success;
  }

  /** `push(n)`: n single `(push)` commands unless the superclass reports an error,
      stopping at the first reply that is not clean. */
  method Push(n: int, status: Response, replies: seq<Reply>) returns (response: Response, sent: seq<string>)
    requires n <= |replies|
    ensures status.IsError() ==> response == status && sent == []
    ensures !status.IsError() ==>
      SentUntilFirstFailure("(push)\n", "push command failed: ", n, replies, response, sent)
  {
    if status.IsError() {
      return status, [];
    }
    response, sent := SendRepeatedly("(push)\n", "push command failed: ", n, replies);
  }

  /** `pop(n)`: n single `(pop)` commands unless the superclass reports an error,
      stopping at the first reply that is not clean. */
  method Pop(n: int, status: Response, replies: seq<Reply>) returns (response: Response, sent: seq<string>)
    requires n <= |replies|
    ensures status.IsError() ==> response == status && sent == []
    ensures !status.IsError() ==>
      SentUntilFirstFailure("(pop)\n", "Yices pop command failed: ", n, replies, response, sent)
  {
    if status.IsError() {
      return status, [];
    }
    response, sent := SendRepeatedly("(pop)\n", "Yices pop command failed: ", n, replies);
  }

  // ---------------------------------------------------------------------------------
  // declare-fun

  /** The argument sorts of a function declaration, each preceded by a space. */
  function SortList(sorts: seq<Sort>, k: nat): Translation
    requires k <= |sorts|
  {
    if k == 0 then Ok("")
    else
      var s :- SortList(sorts, k - 1);
      var t :- TranslateSort(sorts[k - 1]);
      Ok(s + (" " + t))
  }

  /** The Yices `define` command declaring `name` with the given argument and result sorts. */
  function DefineCommand(name: string, argSorts: seq<Sort>, result: Sort): Translation {
    if |argSorts| == 0 then
      var r :- TranslateSort(result);
      Ok("(define " + name + "::" + r + ")\n")
    else
      var a :- SortList(argSorts, |argSorts|);
      var r :- TranslateSort(result);
      Ok("(define " + name + "::(->" + a + " " + r + "))\n")
  }

  /** The argument sorts translate exactly when each of them is supported. */
  lemma {:induction false} SortListOk(sorts: seq<Sort>, k: nat)
    requires k <= |sorts|
    ensures SortList(sorts, k).Ok? <==> forall i | 0 <= i < k :: SortSupported(sorts[i])
    decreases k
  {
    if k > 0 {
      SortListOk(sorts, k - 1);
      assert SortList(sorts, k).Ok? <==> SortList(sorts, k - 1).Ok? && TranslateSort(sorts[k - 1]).Ok?;
    }
  }

  /** The sorts translate one by one, each preceded by a space, in declaration order. */
  lemma {:induction false} SortListValue(sorts: seq<Sort>, ss: seq<string>, k: nat)
    requires |ss| == |sorts| && k <= |sorts|
    requires forall i | 0 <= i < |sorts| :: TranslateSort(sorts[i]) == Ok(ss[i])
    ensures SortList(sorts, k) == Ok(Concat(Spaced(ss[..k])))
    decreases k
  {
    if k > 0 {
      SortListValue(sorts, ss, k - 1);
      var sp := Spaced(ss[..k]);
      assert sp[..k - 1] == Spaced(ss[..k - 1]);
      assert Concat(sp) == Concat(sp[..k - 1]) + sp[k - 1];
      assert TranslateSort(sorts[k - 1]) == Ok(ss[k - 1]);
    }
  }

  /** A declaration translates exactly when its argument sorts and its result sort are
      all supported. */
  lemma DefineCommandOk(name: string, argSorts: seq<Sort>, result: Sort)
    ensures DefineCommand(name, argSorts, result).Ok? <==>
      (forall i | 0 <= i < |argSorts| :: SortSupported(argSorts[i])) && SortSupported(result)
  {
    SortListOk(argSorts, |argSorts|);
  }

  /** The `define` text: a constant gets its sort directly; a function gets the arrow sort
      of its argument sorts followed by its result sort, separated by single spaces. */
  lemma DefineCommandText(name: string, argSorts: seq<Sort>, result: Sort, ss: seq<string>, rs: string)
    requires |ss| == |argSorts|
    requires forall i | 0 <= i < |argSorts| :: TranslateSort(argSorts[i]) == Ok(ss[i])
    requires TranslateSort(result) == Ok(rs)
    ensures |argSorts| == 0 ==> DefineCommand(name, argSorts, result) == Ok("(define " + name + "::" + rs + ")\n")
    ensures |argSorts| > 0 ==>
      DefineCommand(name, argSorts, result) == Ok("(define " + name + "::(-> " + Join(" ", ss + [rs]) + "))\n")
  {
    if |argSorts| > 0 {
      SortListValue(argSorts, ss, |argSorts|);
      assert ss[..|argSorts|] == ss;
      var a := Concat(Spaced(ss));
      DefineArrow(name, argSorts, result, a, rs);
      SpacedSnoc(ss, rs);
      ArrowText(name, a, rs, Join(" ", ss + [rs]));
    }
  }

  // A step of DefineCommandText, split off to keep that proof small.
  lemma DefineArrow(name: string, argSorts: seq<Sort>, result: Sort, a: string, rs: string)
    requires |argSorts| > 0
    requires SortList(argSorts, |argSorts|) == Ok(a) && TranslateSort(result) == Ok(rs)
    ensures DefineCommand(name, argSorts, result) == Ok("(define " + name + "::(->" + a + " " + rs + "))\n")
  {
  }

  // The string step of DefineCommandText, kept apart from the translation facts so that
  // the proof stays small.
  lemma ArrowText(name: string, a: string, rs: string, j: string)
    requires a + (" " + rs) == " " + j
    ensures "(define " + name + "::(->" + a + " " + rs + "))\n" == "(define " + name + "::(-> " + j + "))\n"
  {
    assert "(define " + name + "::(->" + a + " " + rs + "))\n" == "(define " + name + "::(->" + (a + (" " + rs)) + "))\n";
    assert "::(->" + " " == "::(-> ";
  }

  /** `declare-fun` sends the `define` command when the superclass accepts it and every
      sort translates; a sort that does not translate sends nothing. */
  function DeclareFun(status: Response, name: string, argSorts: seq<Sort>, result: Sort, reply: Reply): (r: Outcome)
    ensures !status.IsOK() ==> r == Outcome(status, [])
    ensures status.IsOK() && DefineCommand(name, argSorts, result).Err? ==> r.sent == [] && r.response.IsError()
    ensures status.IsOK() && DefineCommand(name, argSorts, result).Ok? ==>
      r.sent == [DefineCommand(name, argSorts, result).value]
    ensures status.IsOK() ==> (r.response.IsOK() <==> DefineCommand(name, argSorts, result).Ok? && Clean(reply))
    ensures status.IsOK() && DefineCommand(name, argSorts, result).Ok? && !Clean(reply) ==>
      r.response == Complaint("declare-fun command failed: ", reply)
  {
    if !status.IsOK() then Outcome(status, [])
    else
      match DefineCommand(name, argSorts, result)
      case Err(f) => Outcome(Error("declare-fun command failed: " + f.message, None), [])
      case Ok(text) =>
        match reply
        case IOFault(m) => Outcome(Error("declare-fun command failed: " + m, None), [text])
        case Heard(s) =>
          if Contains(s, ErrorIndication) then Outcome(Error(s, None), [text]) else Outcome(status, [text])
  }

  // ---------------------------------------------------------------------------------
  // A session

  /** Declaring `x` of sort Int, asserting `(> x 0)` and checking sends the three Yices
      commands below; a "sat" reply makes the check answer sat, and `get-info :status`
      then answers sat as well without sending anything. */
  lemma SessionScenario(authors: string, version: string)
    ensures DeclareFun(Success, "x", [], SortApp(Symbol("Int", None), [], None), Heard("")) ==
      Outcome(Success, ["(define x::int)\n"])
    ensures AssertExpr(Success, App(Symbol(">", None), [Id(Symbol("x", None)), Numeral(0, None)], None), Heard("")) ==
      Outcome(Success, ["(assert+ (and (> x 0)) )\n"])
    ensures CheckSat(Success, Heard("sat"), None) == CheckOutcome(Sat, ["(check)\r\n"], Some(Sat))
    ensures GetInfo(":status", Some(Sat), authors, version) == Sat
  {
    ScenarioDeclare();
    ScenarioAssert();
    ScenarioCheck();
  }

  // The declaration step of SessionScenario, split off to keep that proof small.
  lemma ScenarioDeclare()
    ensures DeclareFun(Success, "x", [], SortApp(Symbol("Int", None), [], None), Heard("")) ==
      Outcome(Success, ["(define x::int)\n"])
  {
    DefineCommandText("x", [], SortApp(Symbol("Int", None), [], None), [], "int");
    assert "(define " + "x" + "::" + "int" + ")\n" == "(define x::int)\n";
    assert !Contains("", ErrorIndication);
  }

  // The assertion step of SessionScenario, split off to keep that proof small.
  lemma ScenarioAssert()
    ensures AssertExpr(Success, App(Symbol(">", None), [Id(Symbol("x", None)), Numeral(0, None)], None), Heard("")) ==
      Outcome(Success, ["(assert+ (and (> x 0)) )\n"])
  {
    var gt := App(Symbol(">", None), [Id(Symbol("x", None)), Numeral(0, None)], None);
    ScenarioAssertText(gt);
    QuietAssert(gt, "(and (> x 0))");
    AssertLineText();
  }

  // A literal string equality, kept out of ScenarioAssert so that proof stays small.
  lemma AssertLineText()
    ensures "(assert+ " + "(and (> x 0))" + " )\n" == "(assert+ (and (> x 0)) )\n"
  {
  }

  /** An assertion whose expression translates, answered with an empty reply; split off
      from ScenarioAssert to keep that proof small. */
  lemma QuietAssert(e: Expr, t: string)
    requires Translate(e) == Ok(t)
    ensures AssertExpr(Success, e, Heard("")) == Outcome(Success, ["(assert+ " + t + " )\n"])
  {
    assert !Contains("", ErrorIndication);
  }

  // The check step of SessionScenario, split off to keep that proof small.
  lemma ScenarioCheck()
    ensures CheckSat(Success, Heard("sat"), None) == CheckOutcome(Sat, ["(check)\r\n"], Some(Sat))
  {
    assert OccursAt("sat", "sat", 0);
    assert !Contains("sat", ErrorIndication);
    assert !Contains("sat", "unsat");
  }

  // The translation of the asserted expression, split off from ScenarioAssert to keep
  // that proof small.
  lemma ScenarioAssertText(gt: Expr)
    requires gt == App(Symbol(">", None), [Id(Symbol("x", None)), Numeral(0, None)], None)
    ensures Translate(gt) == Ok("(and (> x 0))")
  {
    ScenarioChain(gt.args);
    TranslatorFacts.ChainText(">", None, gt.args, None, "(> x 0)");
    ConjunctionText();
  }

  // A literal string equality, kept out of ScenarioAssertText so that proof stays small.
  lemma ConjunctionText()
    ensures "(and " + "(> x 0)" + ")" == "(and (> x 0))"
  {
  }

  // The chain step of ScenarioAssertText, split off to keep that proof small.
  lemma ScenarioChain(args: seq<Expr>)
    requires args == [Id(Symbol("x", None)), Numeral(0, None)]
    ensures ChainPairs(">", args, 2) == Ok("(> x 0)")
  {
    assert ChainPairs(">", args, 1) == Ok("");
    assert Translate(args[0]) == Ok("x");
    assert Translate(args[1]) == Ok("0");
    assert "" + ("(" + ">" + " " + "x" + " " + "0" + ")") == "(> x 0)";
  }
}
