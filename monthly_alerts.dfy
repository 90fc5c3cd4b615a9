/**
 * The error batching of the monthly alert command
 * (frontend/management/commands/send_monthly_alerts.py): the validation of
 * its options, the retrier that absorbs the first `max_errors` mail failures,
 * and the message of the `BatchedEmailErrors` it raises.
 */
module MonthlyAlerts {
  import opened Wrappers
  import opened Collections
  import opened Strings

  /** A command-line option counts as given when it is present and not empty (Python truthiness). */
  predicate Given(option: Option<string>) {
    option.Some? && option.value != ""
  }

  const MissingRecipient: string :=
    "You must specify a test recipient email if you want to specify a test CCG, practice, or URL"
  const UrlWithOrganisation: string :=
    "You must specify either a URL, or one of a ccg or a practice"

  /** `validate_options` (lines 124-133): the message of the `CommandError` it raises, if any. */
  function ValidateOptions(url: Option<string>, ccg: Option<string>, practice: Option<string>,
                           recipientEmail: Option<string>): (r: Option<string>)
    ensures r == None || r == Some(MissingRecipient) || r == Some(UrlWithOrganisation)
    ensures r == Some(MissingRecipient) <==> (Given(url) || Given(ccg) || Given(practice)) && !Given(recipientEmail)
  {
    if (Given(url) || Given(ccg) || Given(practice)) && !Given(recipientEmail) then
      Some(MissingRecipient)
    else if Given(url) && (Given(practice) || Given(ccg)) then
      Some(UrlWithOrganisation)
    else
      None
  }

  /**
   * The accepted combinations: no test target at all, or a test recipient
   * with either a URL alone or a CCG and/or practice without a URL.
   */
  lemma AcceptedOptions(url: Option<string>, ccg: Option<string>, practice: Option<string>,
                        recipientEmail: Option<string>)
    ensures ValidateOptions(url, ccg, practice, recipientEmail).None? <==>
      (!Given(url) && !Given(ccg) && !Given(practice)) ||
      (Given(recipientEmail) && Given(url) && !Given(ccg) && !Given(practice)) ||
      (Given(recipientEmail) && !Given(url))
  {
  }

  /** A URL together with a CCG or practice is refused, whether or not a recipient is given. */
  lemma UrlExcludesOrganisation(url: Option<string>, ccg: Option<string>, practice: Option<string>,
                                recipientEmail: Option<string>)
    requires Given(url) && (Given(ccg) || Given(practice))
    ensures ValidateOptions(url, ccg, practice, recipientEmail).Some?
    ensures Given(recipientEmail) ==> ValidateOptions(url, ccg, practice, recipientEmail) == Some(UrlWithOrganisation)
  {
  }

  /** Lines 172-175: the message for several failures, their count and their distinct texts. */
  function Report(count: nat, listed: seq<string>): (r: string)
    ensures var head := "Encountered " + NatToString(count) + " "; |head| <= |r| && r[..|head|] == head
    ensures var tail := Join(", ", listed) + "`"; |tail| <= |r| && r[|r| - |tail|..] == tail
  {
    ("Encountered " + NatToString(count) + " ") + "mail exceptions (showing last traceback only): `" +
    Join(", ", listed) + "`"
  }

  /** `listed` is an order in which the distinct texts of `exceptions` can be listed. */
  predicate ListsDistinct(exceptions: seq<string>, listed: seq<string>) {
    Enumerates(listed, Support(exceptions))
  }

  /**
   * `msg` is the message of `BatchedEmailErrors(exceptions)` (lines 164-178):
   * for several failures, the report of all of them, duplicates counted, with
   * each distinct text listed once in some order; for one, its own text.
   */
  ghost predicate BatchMessage(exceptions: seq<string>, msg: string) {
    if |exceptions| > 1 then exists listed :: ListsDistinct(exceptions, listed) && msg == Report(|exceptions|, listed)
    else |exceptions| == 1 && msg == exceptions[0]
  }

  /** Iterating a set: its elements, each once, in an order left open. */
  method Listing(xs: set<string>) returns (s: seq<string>)
    ensures Enumerates(s, xs)
  {
    var rest := xs;
    s := [];
    while rest != {}
      invariant rest <= xs && NoDup(s)
      invariant forall x :: x in s <==> x in xs - rest
      decreases |rest|
    {
      var x :| x in rest;
      NoDupSnoc(s, x);
      s := s + [x];
      rest := rest - {x};
    }
  }

  /**
   * `BatchedEmailErrors.__init__` (lines 164-178), each failure given by its
   * formatted text. With no failure the final `pop` of the empty set raises,
   * which is `None` here.
   */
  method BatchedEmailErrors(exceptions: seq<string>) returns (msg: Option<string>)
    ensures msg.None? <==> |exceptions| == 0
    ensures msg.Some? ==> BatchMessage(exceptions, msg.value)
  {
    var individualMessages: set<string> := {};
    for i := 0 to |exceptions|
      invariant individualMessages == Support(exceptions[..i])
    {
      assert exceptions[..i + 1] == exceptions[..i] + [exceptions[i]];
      individualMessages := individualMessages + {exceptions[i]};
    }
    assert exceptions[..|exceptions|] == exceptions;
    assert |exceptions| > 0 ==> exceptions[0] in individualMessages;
    if |exceptions| > 1 {
      var listed := Listing(individualMessages);
      assert ListsDistinct(exceptions, listed);
      msg := Some(Report(|exceptions|, listed));
    } else if individualMessages == {} {
      msg := None;
    } else {
      assert individualMessages == {exceptions[0]};
      var m :| m in individualMessages;
      msg := Some(m);
    }
  }

  /** A listing of a single text is that text alone. */
  lemma SingletonListing(listed: seq<string>, m: string)
    requires Enumerates(listed, {m})
    ensures listed == [m]
  {
    NoDupCard(listed);
    assert |{m}| == 1;
    assert listed[0] in Support(listed);
  }

  /**
   * The same failure repeated is counted every time it happens and listed
   * once: the message has exactly one form.
   */
  lemma RepeatedFailure(exceptions: seq<string>, m: string, msg: string)
    requires |exceptions| > 1 && forall i :: 0 <= i < |exceptions| ==> exceptions[i] == m
    requires BatchMessage(exceptions, msg)
    ensures msg == Report(|exceptions|, [m])
  {
    var listed :| ListsDistinct(exceptions, listed) && msg == Report(|exceptions|, listed);
    assert Support(exceptions) == {m} by {
      assert exceptions[0] in exceptions;
    }
    SingletonListing(listed, m);
  }

  /** Two failures with the same text, reported. */
  lemma TwiceTheSameFailure(msg: string)
    requires BatchMessage(["SMTPError", "SMTPError"], msg)
    ensures msg == ("Encountered " + "2" + " ") + "mail exceptions (showing last traceback only): `" + "SMTPError" + "`"
  {
    RepeatedFailure(["SMTPError", "SMTPError"], "SMTPError", msg);
    assert Digit(2) == '2';
    assert NatToString(2) == "2";
    assert Join(", ", ["SMTPError"]) == "SMTPError";
  }

  /** What a mail-sending callback does: sends, or fails with an exception of the given text. */
  datatype Delivery = Sent | Failed(text: string)

  /** The texts of the failures among `outcomes`, in order. */
  function Failures(outcomes: seq<Delivery>): (r: seq<string>)
    ensures |r| <= |outcomes|
    decreases |outcomes|
  {
    if outcomes == [] then []
    else
      var last := outcomes[|outcomes| - 1];
      Failures(outcomes[..|outcomes| - 1]) + if last.Failed? then [last.text] else []
  }

  /** The failures of a list followed by more are the failures of the first then of the second. */
  lemma {:induction false} FailuresAppend(a: seq<Delivery>, b: seq<Delivery>)
    ensures Failures(a + b) == Failures(a) + Failures(b)
    decreases |b|
  {
    if b != [] {
      var init := b[..|b| - 1];
      FailuresAppend(a, init);
      assert (a + b)[..|a + b| - 1] == a + init;
      assert (a + b)[|a + b| - 1] == b[|b| - 1];
      assert b[..|b| - 1] == init;
    } else {
      assert a + b == a;
    }
  }

  /** The failures before position `i` are the first of all the failures. */
  lemma FailuresPrefix(outcomes: seq<Delivery>, i: nat)
    requires i <= |outcomes|
    ensures Failures(outcomes[..i]) <= Failures(outcomes)
  {
    var before, after := outcomes[..i], outcomes[i..];
    assert before + after == outcomes;
    FailuresAppend(before, after);
    assert Failures(outcomes)[..|Failures(before)|] == Failures(before);
  }

  /**
   * A retrier holding `held` texts takes the further `failures` without
   * raising: none, or not more than `maxErrors` in all.
   */
  predicate Absorbs(maxErrors: int, held: nat, failures: seq<string>) {
    failures == [] || held + |failures| <= maxErrors
  }

  /** The failures of one more outcome. */
  lemma FailuresStep(outcomes: seq<Delivery>, i: nat)
    requires i < |outcomes|
    ensures Failures(outcomes[..i + 1]) ==
      Failures(outcomes[..i]) + if outcomes[i].Failed? then [outcomes[i].text] else []
  {
    assert outcomes[..i + 1] == outcomes[..i] + [outcomes[i]];
    FailuresAppend(outcomes[..i], [outcomes[i]]);
  }

  /**
   * A retrier holding `held` texts that absorbed the failures before `i` and
   * raises at the failure `i` has recorded the first `Cut` failures of all.
   */
  lemma RaiseAt(outcomes: seq<Delivery>, i: nat, held: nat, maxErrors: int)
    requires i < |outcomes| && outcomes[i].Failed?
    requires Absorbs(maxErrors, held, Failures(outcomes[..i]))
    requires held + |Failures(outcomes[..i])| + 1 > maxErrors
    ensures !Absorbs(maxErrors, held, Failures(outcomes))
    ensures Failures(outcomes)[..Cut(maxErrors, held)] == Failures(outcomes[..i + 1])
  {
    FailuresStep(outcomes, i);
    FailuresPrefix(outcomes, i + 1);
    RaiseCut(maxErrors, held, Failures(outcomes[..i]), outcomes[i].text, Failures(outcomes));
  }

  /**
   * The failure that makes a retrier holding `held` texts raise is the one at
   * which `Cut` stops: `before` did not exceed `maxErrors`, `before + [x]` does.
   */
  lemma RaiseCut(maxErrors: int, held: nat, before: seq<string>, x: string, all: seq<string>)
    requires before == [] || held + |before| <= maxErrors
    requires held + |before| + 1 > maxErrors
    requires before + [x] <= all
    ensures all != [] && held + |all| > maxErrors
    ensures all[..Cut(maxErrors, held)] == before + [x]
  {
  }

  /** The default threshold of line 182. */
  const DefaultMaxErrors: int := 3

  /**
   * How `--max_errors` (lines 60-63) reaches the retrier: its default, or the
   * text given on the command line, which no `type=` converts.
   */
  datatype MaxErrorsOption = Default | Typed(text: string)

  /**
   * The test of line 192 as written, under Python 2: the default is a number,
   * but a typed limit is a string, and every number orders below every string.
   */
  function ExceedsAsWritten(count: nat, option: MaxErrorsOption): (r: bool)
    ensures r ==> option.Default? && count > DefaultMaxErrors
    ensures option.Typed? ==> !r
  {
    match option
    case Default => count > DefaultMaxErrors
    case Typed(_) => false
  }

  /** The decimal value of a non-empty string of digits, `None` for any other string. */
  function DecimalValue(s: string): (r: Option<nat>)
    decreases |s|
  {
    if s == [] || !('0' <= s[|s| - 1] <= '9') then None
    else
      var d := s[|s| - 1] as int - '0' as int;
      if |s| == 1 then Some(d)
      else match DecimalValue(s[..|s| - 1])
        case None => None
        case Some(v) => Some(v * 10 + d)
  }

  /** The value of a digit's character is the digit. */
  lemma DigitValue(d: nat)
    requires d < 10
    ensures Digit(d) as int - '0' as int == d
  {
    assert d == 0 || d == 1 || d == 2 || d == 3 || d == 4 || d == 5 || d == 6 || d == 7 || d == 8 || d == 9;
  }

  /** Reading back the decimal text of `n` gives `n`. */
  lemma {:induction false} DecimalRoundTrip(n: nat)
    ensures DecimalValue(NatToString(n)) == Some(n)
  {
    if n < 10 {
      DigitValue(n);
    } else {
      var s := NatToString(n);
      DecimalRoundTrip(n / 10);
      DigitValue(n % 10);
      assert s[..|s| - 1] == NatToString(n / 10);
      assert s[|s| - 1] == Digit(n % 10);
    }
  }

  /** The limit as intended: the typed text read as a number (`type=int`), `None` when it is not one. */
  function MaxErrorsValue(option: MaxErrorsOption): (r: Option<int>)
    ensures option.Default? ==> r == Some(DefaultMaxErrors)
    ensures option.Typed? && r.Some? ==> r.value >= 0
  {
    match option
    case Default => Some(DefaultMaxErrors)
    case Typed(text) =>
      match DecimalValue(text)
      case None => None
      case Some(v) => Some(v)
  }

  /** Ten failures against a typed limit of 3 are not "more than 3". */
  lemma TypedLimitIgnored()
    ensures MaxErrorsValue(Typed("3")) == Some(3)
    ensures !ExceedsAsWritten(10, Typed("3"))
  {
    assert "3"[0] as int - '0' as int == 3;
  }

  /** A typed limit of `n` is the limit `n`, which `TryEmail` then compares as a number. */
  lemma TypedLimitRead(n: nat)
    ensures MaxErrorsValue(Typed(NatToString(n))) == Some(n)
  {
    DecimalRoundTrip(n);
  }

  /**
   * A numeric limit that the retrier treats as it treats `option` as written,
   * in a batch of at most `n` mails: the default, or for a typed text a limit
   * that no count of failures in the batch exceeds.
   */
  function AsWrittenLimit(option: MaxErrorsOption, n: nat): (r: int)
    ensures option.Default? ==> r == DefaultMaxErrors
    ensures option.Typed? ==> r >= n
  {
    match option
    case Default => DefaultMaxErrors
    case Typed(_) => n
  }

  /** For at most `n` failures, the test of line 192 as written is the numeric test against `AsWrittenLimit`. */
  lemma AsWrittenIsNumeric(count: nat, option: MaxErrorsOption, n: nat)
    requires count <= n
    ensures ExceedsAsWritten(count, option) <==> count > AsWrittenLimit(option, n)
  {
  }

  /** `EmailRetrier` (lines 181-204): the failures so far, and how many are tolerated. */
  class EmailRetrier {
    var exceptions: seq<string>
    var maxErrors: int

    /** Lines 182-184. */
    constructor (maxErrors: int := DefaultMaxErrors)
      ensures this.exceptions == [] && this.maxErrors == maxErrors
    {
      this.exceptions := [];
      this.maxErrors := maxErrors;
    }

    /**
     * `try_email` (lines 186-194), `outcome` being what the callback does: a
     * failure is recorded, and raises `BatchedEmailErrors` with the message
     * returned once more than `maxErrors` are recorded.
     */
    method TryEmail(outcome: Delivery) returns (raised: Option<string>)
      modifies this
      ensures maxErrors == old(maxErrors)
      ensures outcome.Sent? ==> exceptions == old(exceptions) && raised.None?
      ensures outcome.Failed? ==> exceptions == old(exceptions) + [outcome.text]
      ensures outcome.Failed? ==> (raised.Some? <==> |exceptions| > maxErrors)
      ensures raised.Some? ==> BatchMessage(exceptions, raised.value)
    {
      raised := None;
      if outcome.Failed? {
        exceptions := exceptions + [outcome.text];
        if |exceptions| > maxErrors {
          var msg := BatchedEmailErrors(exceptions);
          raised := Some(msg.value);
        }
      }
    }

    /** `__exit__` (lines 199-204): raises `BatchedEmailErrors` exactly when a failure was recorded. */
    method Exit() returns (raised: Option<string>)
      ensures raised.Some? <==> |exceptions| > 0
      ensures raised.Some? ==> BatchMessage(exceptions, raised.value)
    {
      raised := BatchedEmailErrors(exceptions);
    }

    /**
     * Lines 138-161: `try_email` for one callback after another, until one
     * raises. It raises once the failures so far exceed `maxErrors`, having
     * recorded them up to that one.
     */
    method TryEach(outcomes: seq<Delivery>) returns (raised: Option<string>)
      modifies this
      ensures maxErrors == old(maxErrors)
      ensures raised.None? <==> Absorbs(maxErrors, |old(exceptions)|, Failures(outcomes))
      ensures raised.None? ==> exceptions == old(exceptions) + Failures(outcomes)
      ensures raised.Some? ==> exceptions == old(exceptions) + Failures(outcomes)[..Cut(maxErrors, |old(exceptions)|)]
      ensures raised.Some? ==> BatchMessage(exceptions, raised.value)
    {
      raised := None;
      var i := 0;
      while i < |outcomes|
        invariant 0 <= i <= |outcomes|
        invariant raised.None? && maxErrors == old(maxErrors)
        invariant exceptions == old(exceptions) + Failures(outcomes[..i])
        invariant Absorbs(maxErrors, |old(exceptions)|, Failures(outcomes[..i]))
      {
        FailuresStep(outcomes, i);
        raised := TryEmail(outcomes[i]);
        if raised.Some? {
          RaiseAt(outcomes, i, |old(exceptions)|, maxErrors);
          return;
        }
        i := i + 1;
      }
      assert outcomes[..i] == outcomes;
    }
  }

  /** How many of the failures a retrier that already holds `held` records before it raises. */
  function Cut(maxErrors: int, held: nat): nat {
    if maxErrors + 1 - held >= 1 then maxErrors + 1 - held else 1
  }

  /**
   * The `with EmailRetrier(max_errors)` block of lines 137-161: the callbacks
   * run until the retrier raises, then leaving the block raises again when
   * anything failed. The batch ends in `BatchedEmailErrors` exactly when some
   * mail failed, and then reports the first failures, at most `maxErrors + 1`.
   */
  method SendAll(maxErrors: int, outcomes: seq<Delivery>) returns (raised: Option<string>)
    ensures raised.Some? <==> Failures(outcomes) != []
    ensures raised.Some? ==> BatchMessage(Failures(outcomes)[..Min(|Failures(outcomes)|, Cut(maxErrors, 0))], raised.value)
  {
    var retrier := new EmailRetrier(maxErrors);
    var early := retrier.TryEach(outcomes);
    raised := retrier.Exit();
  }

  /**
   * Lines 60-63 and 137-161 as written: with the default limit the retrier
   * raises at the fourth failure; with a typed limit it never raises inside
   * the block, and leaving the block reports every failure of the batch.
   */
  method SendAllAsWritten(option: MaxErrorsOption, outcomes: seq<Delivery>) returns (raised: Option<string>)
    ensures raised.Some? <==> Failures(outcomes) != []
    ensures raised.Some? && option.Default? ==>
      BatchMessage(Failures(outcomes)[..Min(|Failures(outcomes)|, DefaultMaxErrors + 1)], raised.value)
    ensures raised.Some? && option.Typed? ==> BatchMessage(Failures(outcomes), raised.value)
  {
    raised := SendAll(AsWrittenLimit(option, |outcomes|), outcomes);
    assert Failures(outcomes)[..|Failures(outcomes)|] == Failures(outcomes);
  }

  function Min(a: nat, b: nat): nat {
    if a <= b then a else b
  }
}
