/**
 * How the updater reacts to an HTTP error from the video service
 * (`handle_http_error`), and the retry-on-error pattern that every remote
 * call shares (`get_dislike_count`, `create_comment`, `update_comment`,
 * `find_or_create_comment`).
 *
 * Operator input is a sequence of typed answers, one per prompt; running out
 * of answers stands for `input()` failing at end of input.
 */
module ErrorPolicy {
  import opened Text

  /** An HTTP error: its status and the text `str(error)` renders. */
  datatype HttpError = HttpError(status: int, text: string)

  /** The three ways an error is routed before any operator is asked. */
  datatype Class = QuotaExhausted | Fatal | Recoverable

  /** What handling an error leads to. */
  datatype Handling =
    | Retry           // the operator chose retry
    | Skip            // the operator chose skip
    | QuotaStop       // quota exhausted: `sys.exit(0)`
    | OperatorExit    // the operator chose exit: `sys.exit(0)`
    | Reraise         // a 403 that is not about quota: the error propagates
    | InputExhausted  // no valid answer before the input ended

  function Classify(e: HttpError): (c: Class)
    ensures c == QuotaExhausted <==> e.status == 403 && Contains(e.text, "quotaExceeded")
    ensures c == Fatal <==> e.status == 403 && !Contains(e.text, "quotaExceeded")
    ensures c == Recoverable <==> e.status != 403
  {
    if e.status == 403 then
      if Contains(e.text, "quotaExceeded") then QuotaExhausted else Fatal
    else Recoverable
  }

  /** The answer as the prompt compares it: stripped and lower-cased. */
  function Normalize(answer: string): string {
    LowerAscii(Strip(answer))
  }

  /** The choice one typed answer makes, if it is a valid one. */
  function Choice(answer: string): (h: Option<Handling>)
    ensures h.Some? ==> h.value in {Retry, Skip, OperatorExit}
  {
    var a := Normalize(answer);
    if a == "r" || a == "retry" then Some(Retry)
    else if a == "s" || a == "skip" then Some(Skip)
    else if a == "e" || a == "exit" then Some(OperatorExit)
    else None
  }

  /**
   * The menu: `r`/`retry` chooses retry, `s`/`skip` skip and `e`/`exit`
   * exit, and every other normalised answer is invalid.
   */
  lemma ChoiceMenu(answer: string)
    ensures Choice(answer) == Some(Retry) <==> Normalize(answer) in {"r", "retry"}
    ensures Choice(answer) == Some(Skip) <==> Normalize(answer) in {"s", "skip"}
    ensures Choice(answer) == Some(OperatorExit) <==> Normalize(answer) in {"e", "exit"}
    ensures Choice(answer) == None <==> Normalize(answer) !in {"r", "retry", "s", "skip", "e", "exit"}
  {
  }

  /**
   * An answer is compared without the whitespace around it and without
   * case: padding it with whitespace, or typing it in capitals, makes the
   * same choice.
   */
  lemma NormalizePadded(w1: string, a: string, w2: string)
    requires forall i :: 0 <= i < |w1| ==> w1[i] in Whitespace
    requires forall i :: 0 <= i < |w2| ==> w2[i] in Whitespace
    requires a == "" || (a[0] !in Whitespace && a[|a| - 1] !in Whitespace)
    ensures Normalize(w1 + a + w2) == LowerAscii(a)
    ensures Choice(w1 + a + w2) == Choice(LowerAscii(a))
  {
    StripPadded(w1, a, w2);
    var lower := LowerAscii(a);
    if a != "" {
      assert lower[0] == LowerChar(a[0]) && lower[|a| - 1] == LowerChar(a[|a| - 1]);
      StripUnchanged(lower);
    }
    LowerTwice(a);
  }

  /** Lower-casing is idempotent. */
  lemma LowerTwice(a: string)
    ensures LowerAscii(LowerAscii(a)) == LowerAscii(a)
  {
  }

  /** The choice each answer makes, in order. */
  function Choices(answers: seq<string>): (cs: seq<Option<Handling>>)
    ensures |cs| == |answers|
    ensures forall j :: 0 <= j < |answers| ==> cs[j] == Choice(answers[j])
    ensures OnlyMenuChoices(cs)
  {
    seq(|answers|, j requires 0 <= j < |answers| => Choice(answers[j]))
  }

  /** Every choice is one of the three menu entries, or no choice. */
  predicate OnlyMenuChoices(cs: seq<Option<Handling>>) {
    forall j :: 0 <= j < |cs| ==> cs[j].None? || cs[j].value in {Retry, Skip, OperatorExit}
  }

  /**
   * The prompt loop from answer `i` on, over the choices the answers make:
   * the handling chosen and how many answers have been read in all.
   */
  function Ask(cs: seq<Option<Handling>>, i: nat): (r: (Handling, nat))
    ensures r.1 <= |cs|
    decreases |cs| - i
  {
    if i >= |cs| then (InputExhausted, |cs|)
    else if cs[i].Some? then (cs[i].value, i + 1)
    else Ask(cs, i + 1)
  }

  /** The prompt loop's result is the first valid answer, and every answer before it was invalid. */
  lemma {:induction false} AskFirstValid(cs: seq<Option<Handling>>, i: nat)
    requires i <= |cs|
    requires OnlyMenuChoices(cs)
    requires forall j :: 0 <= j < i ==> cs[j] == None
    ensures var (h, used) := Ask(cs, i);
      && h in {Retry, Skip, OperatorExit, InputExhausted}
      && (h == InputExhausted <==> forall j :: 0 <= j < |cs| ==> cs[j] == None)
      && (h == InputExhausted ==> used == |cs|)
      && (h != InputExhausted ==>
            used >= 1 && cs[used - 1] == Some(h)
            && forall j :: 0 <= j < used - 1 ==> cs[j] == None)
    decreases |cs| - i
  {
    if i < |cs| && cs[i].None? {
      AskFirstValid(cs, i + 1);
    }
  }

  /** The pure form of `handle_http_error`: the handling and the number of answers read. */
  function Handle(e: HttpError, answers: seq<string>): (r: (Handling, nat))
    ensures r.1 <= |answers|
    ensures r.0 == QuotaStop <==> Classify(e) == QuotaExhausted
    ensures r.0 == Reraise <==> Classify(e) == Fatal
  {
    match Classify(e)
    case QuotaExhausted => (QuotaStop, 0)
    case Fatal => (Reraise, 0)
    case Recoverable =>
      AskFirstValid(Choices(answers), 0);
      Ask(Choices(answers), 0)
  }

  /** The `while True` prompt loop of `handle_http_error`. */
  method Prompt(answers: seq<string>) returns (h: Handling, used: nat)
    ensures used <= |answers|
    ensures h in {Retry, Skip, OperatorExit, InputExhausted}
    ensures h == InputExhausted ==>
      used == |answers| && forall j :: 0 <= j < |answers| ==> Choice(answers[j]) == None
    ensures h != InputExhausted ==>
      used >= 1 && Choice(answers[used - 1]) == Some(h)
      && forall j :: 0 <= j < used - 1 ==> Choice(answers[j]) == None
  {
    var i := 0;
    while i < |answers|
      invariant 0 <= i <= |answers|
      invariant forall j :: 0 <= j < i ==> Choice(answers[j]) == None
    {
      var c := Choice(answers[i]);
      if c.Some? {
        return c.value, i + 1;
      }
      i := i + 1;
    }
    return InputExhausted, |answers|;
  }

  /** `handle_http_error`: classify, then ask the operator only for a recoverable error. */
  method HandleHttpError(e: HttpError, answers: seq<string>) returns (h: Handling, used: nat)
    ensures (h, used) == Handle(e, answers)
    ensures Classify(e) == QuotaExhausted ==> h == QuotaStop && used == 0
    ensures Classify(e) == Fatal ==> h == Reraise && used == 0
    ensures Classify(e) == Recoverable ==>
      && used <= |answers|
      && h in {Retry, Skip, OperatorExit, InputExhausted}
      && (h == InputExhausted <==> forall j :: 0 <= j < |answers| ==> Choice(answers[j]) == None)
      && (h != InputExhausted ==>
            used >= 1 && Choice(answers[used - 1]) == Some(h)
            && forall j :: 0 <= j < used - 1 ==> Choice(answers[j]) == None)
  {
    if e.status == 403 {
      if Contains(e.text, "quotaExceeded") {
        return QuotaStop, 0;
      }
      return Reraise, 0;
    }
    h, used := Prompt(answers);
    var cs := Choices(answers);
    AskFirstValid(cs, 0);
    AskSkipsInvalid(cs, 0, if h == InputExhausted then |cs| else used - 1);
  }

  lemma {:induction false} AskSkipsInvalid(cs: seq<Option<Handling>>, i: nat, stop: nat)
    requires i <= stop <= |cs|
    requires forall j :: i <= j < stop ==> cs[j] == None
    ensures Ask(cs, i) == Ask(cs, stop)
    decreases stop - i
  {
    if i < stop {
      AskSkipsInvalid(cs, i + 1, stop);
    }
  }

  /** One attempt at a remote call: its response, or the error it failed with. */
  datatype Attempt<T> = Ok(value: T) | Failed(error: HttpError)

  /** How a remote call wrapped in the retry-on-error pattern ends. */
  datatype CallResult<T> =
    | Returned(value: T)
    | Skipped             // the operator chose skip: the call yields `None`
    | Exited              // `sys.exit(0)`: quota exhausted or the operator chose exit
    | Raised(error: HttpError)
    | NoInput             // the operator input ended while prompting
    | OutOfAttempts       // more retries than the attempts supplied

  /**
   * A remote call that, on an HTTP error, consults the error policy: a retry
   * makes the same call again, a skip makes it yield nothing, and anything
   * else re-raises or ends the process. Attempt k is what the (k+1)-th try
   * of the call yields.
   */
  function Call<T>(attempts: seq<Attempt<T>>, answers: seq<string>): CallResult<T>
    decreases |attempts|
  {
    if |attempts| == 0 then OutOfAttempts
    else match attempts[0]
      case Ok(v) => Returned(v)
      case Failed(e) =>
        var (h, used) := Handle(e, answers);
        match h
        case Retry => Call(attempts[1..], answers[used..])
        case Skip => Skipped
        case QuotaStop => Exited
        case OperatorExit => Exited
        case Reraise => Raised(e)
        case InputExhausted => NoInput
  }

  /**
   * An error escapes the retry pattern only when it is a 403 that is not
   * about quota: every other error is either answered by the operator or
   * ends the process.
   */
  lemma {:induction false} OnlyForbiddenEscapes<T>(attempts: seq<Attempt<T>>, answers: seq<string>)
    ensures Call(attempts, answers).Raised? ==>
      var e := Call(attempts, answers).error;
      e.status == 403 && !Contains(e.text, "quotaExceeded")
      && exists k :: 0 <= k < |attempts| && attempts[k] == Failed(e)
    decreases |attempts|
  {
    if |attempts| > 0 && attempts[0].Failed? {
      var (h, used) := Handle(attempts[0].error, answers);
      if h == Reraise {
        assert attempts[0] == Failed(attempts[0].error);
      } else if h == Retry {
        OnlyForbiddenEscapes(attempts[1..], answers[used..]);
        if Call(attempts, answers).Raised? {
          var e := Call(attempts, answers).error;
          var k :| 0 <= k < |attempts[1..]| && attempts[1..][k] == Failed(e);
          assert attempts[k + 1] == Failed(e);
        }
      }
    }
  }

  /**
   * A call returns a value only if some attempt produced it and every attempt
   * before it failed with a recoverable error.
   */
  lemma {:induction false} ReturnedAfterRecoverable<T>(attempts: seq<Attempt<T>>, answers: seq<string>)
    ensures Call(attempts, answers).Returned? ==>
      exists k :: 0 <= k < |attempts| && attempts[k] == Ok(Call(attempts, answers).value)
        && forall j :: 0 <= j < k ==> attempts[j].Failed? && Classify(attempts[j].error) == Recoverable
    decreases |attempts|
  {
    if |attempts| > 0 && attempts[0].Failed? {
      var (h, used) := Handle(attempts[0].error, answers);
      if h == Retry {
        ReturnedAfterRecoverable(attempts[1..], answers[used..]);
        if Call(attempts, answers).Returned? {
          var v := Call(attempts, answers).value;
          var k :| 0 <= k < |attempts[1..]| && attempts[1..][k] == Ok(v)
            && forall j :: 0 <= j < k ==> attempts[1..][j].Failed? && Classify(attempts[1..][j].error) == Recoverable;
          assert attempts[k + 1] == Ok(v);
          forall j | 0 <= j < k + 1
            ensures attempts[j].Failed? && Classify(attempts[j].error) == Recoverable
          {
            if j > 0 {
              assert attempts[j] == attempts[1..][j - 1];
            }
          }
        }
      }
    }
  }

  /** A quota error ends the process at once, before any operator prompt or further attempt. */
  lemma QuotaErrorExits<T>(e: HttpError, rest: seq<Attempt<T>>, answers: seq<string>)
    requires e.status == 403 && Contains(e.text, "quotaExceeded")
    ensures Call([Failed(e)] + rest, answers) == Exited
  {
  }
}
