/**
 * The email form: one address per giver, checked against the pattern
 * `^[^\s@]+@[^\s@]+\.[^\s@]+$` before the email-annotated matches are sent on.
 */
module Email {
  import opened Wrappers
  import opened Sequences
  import opened JsString
  import opened SecretSanta

  const EmailRequired: string := "Email is required"
  const InvalidEmailFormat: string := "Invalid email format"

  // ---------------------------------------------------------------------------
  // validateEmail
  // ---------------------------------------------------------------------------

  /** A character of the class `[^\s@]`. */
  predicate IsPlain(c: char)
  {
    !IsSpace(c) && c != '@'
  }

  predicate AllPlain(s: string)
  {
    forall k :: 0 <= k < |s| ==> IsPlain(s[k])
  }

  /** The domain after the `@`: plain characters with a `.` that has at least one character on each side. */
  ghost predicate DomainShape(d: string)
  {
    AllPlain(d) && exists k :: 0 < k < |d| - 1 && d[k] == '.'
  }

  /** `s` is `L + "@" + D` with a non-empty plain local part `L` and a domain `D` as above. */
  ghost predicate EmailShape(s: string)
  {
    exists at :: 0 < at < |s| && s[at] == '@' && AllPlain(s[..at]) && DomainShape(s[at + 1..])
  }

  /** The states of a deterministic automaton for the email pattern. */
  datatype PatternState =
    | Start    // nothing read
    | Local    // one or more local characters
    | AtSign   // the `@`
    | Domain   // one or more domain characters, no usable `.` yet
    | Dot      // a `.` preceded by a domain character, nothing after it yet
    | Matched  // a `.` with characters on both sides: the pattern matches
    | Failed   // no continuation can match

  function Step(q: PatternState, c: char): PatternState
  {
    match q
    case Start => if IsPlain(c) then Local else Failed
    case Local => if c == '@' then AtSign else if IsPlain(c) then Local else Failed
    case AtSign => if IsPlain(c) then Domain else Failed
    case Domain => if c == '.' then Dot else if IsPlain(c) then Domain else Failed
    case Dot => if IsPlain(c) then Matched else Failed
    case Matched => if IsPlain(c) then Matched else Failed
    case Failed => Failed
  }

  function Run(q: PatternState, s: string): PatternState
    decreases |s|
  {
    if s == [] then q else Run(Step(q, s[0]), s[1..])
  }

  /** `validateEmail`: the regular-expression test, run as the automaton. */
  function ValidateEmail(email: string): bool
  {
    Run(Start, email) == Matched
  }

  lemma {:induction false} RunFailed(t: string)
    ensures Run(Failed, t) == Failed
    decreases |t|
  {
    if t != [] {
      RunFailed(t[1..]);
    }
  }

  lemma AllPlainCons(t: string)
    requires t != []
    ensures AllPlain(t) <==> IsPlain(t[0]) && AllPlain(t[1..])
  {
    if IsPlain(t[0]) && AllPlain(t[1..]) {
      forall k | 0 <= k < |t| ensures IsPlain(t[k]) {
        if k > 0 { assert t[k] == t[1..][k - 1]; }
      }
    }
  }

  lemma {:induction false} RunMatched(t: string)
    ensures Run(Matched, t) == Matched <==> AllPlain(t)
    decreases |t|
  {
    if t != [] {
      RunMatched(t[1..]);
      RunFailed(t[1..]);
      AllPlainCons(t);
    }
  }

  lemma RunDot(t: string)
    ensures Run(Dot, t) == Matched <==> |t| >= 1 && AllPlain(t)
  {
    if t != [] {
      RunMatched(t[1..]);
      RunFailed(t[1..]);
      AllPlainCons(t);
    }
  }

  /** From `Domain`, the rest matches when it is plain and has a `.` followed by a character. */
  ghost predicate DomainRest(t: string)
  {
    AllPlain(t) && exists k :: 0 <= k < |t| - 1 && t[k] == '.'
  }

  lemma {:induction false} RunDomain(t: string)
    ensures Run(Domain, t) == Matched <==> DomainRest(t)
    decreases |t|
  {
    if t != [] {
      var u := t[1..];
      RunFailed(u);
      AllPlainCons(t);
      if t[0] == '.' {
        RunDot(u);
        if |u| >= 1 && AllPlain(u) {
          assert t[0] == '.' && 0 < |t| - 1;
        }
      } else if IsPlain(t[0]) {
        RunDomain(u);
        if DomainRest(t) {
          var k :| 0 <= k < |t| - 1 && t[k] == '.';
          assert k > 0 && u[k - 1] == '.';
        }
        if DomainRest(u) {
          var k :| 0 <= k < |u| - 1 && u[k] == '.';
          assert t[k + 1] == '.';
        }
      }
    }
  }

  lemma RunAtSign(t: string)
    ensures Run(AtSign, t) == Matched <==> DomainShape(t)
  {
    if t != [] {
      var u := t[1..];
      RunFailed(u);
      RunDomain(u);
      AllPlainCons(t);
      if DomainShape(t) {
        var k :| 0 < k < |t| - 1 && t[k] == '.';
        assert u[k - 1] == '.';
      }
      if IsPlain(t[0]) && DomainRest(u) {
        var k :| 0 <= k < |u| - 1 && u[k] == '.';
        assert t[k + 1] == '.';
      }
    }
  }

  /** `t` is plain characters up to an `@` at `at`, followed by a domain. */
  ghost predicate SplitsAt(t: string, at: int)
  {
    0 <= at < |t| && t[at] == '@' && AllPlain(t[..at]) && DomainShape(t[at + 1..])
  }

  /** Dropping a plain first character moves the split one place to the left. */
  lemma SplitsAtShift(t: string, at: nat)
    requires t != [] && IsPlain(t[0])
    ensures SplitsAt(t, at + 1) <==> SplitsAt(t[1..], at)
  {
    var u := t[1..];
    if at + 1 < |t| {
      assert t[..at + 1][1..] == u[..at];
      AllPlainCons(t[..at + 1]);
      assert t[at + 2..] == u[at + 1..];
    }
  }

  /** From `Local`, the rest matches when it is plain characters, an `@`, then a domain. */
  ghost predicate LocalRest(t: string)
  {
    exists at :: SplitsAt(t, at)
  }

  lemma {:induction false} RunLocal(t: string)
    ensures Run(Local, t) == Matched <==> LocalRest(t)
    decreases |t|
  {
    if t != [] {
      var u := t[1..];
      RunFailed(u);
      if t[0] == '@' {
        RunAtSign(u);
        assert SplitsAt(t, 0) <==> DomainShape(u);
        forall at | SplitsAt(t, at) ensures at == 0 { }
      } else if IsPlain(t[0]) {
        RunLocal(u);
        if LocalRest(t) {
          var at :| SplitsAt(t, at);
          SplitsAtShift(t, at - 1);
        }
        if LocalRest(u) {
          var at :| SplitsAt(u, at);
          SplitsAtShift(t, at);
        }
      } else {
        assert !LocalRest(t);
      }
    }
  }

  /**
   * `validateEmail(s)` holds exactly when `s` is a non-empty local part
   * without `@` or spaces, an `@`, and a domain without `@` or spaces that
   * has a `.` with at least one character on each side.
   */
  lemma ValidateEmailSpec(s: string)
    ensures ValidateEmail(s) <==> EmailShape(s)
  {
    if s != [] {
      var u := s[1..];
      RunFailed(u);
      RunLocal(u);
      if EmailShape(s) {
        var at :| 0 < at < |s| && s[at] == '@' && AllPlain(s[..at]) && DomainShape(s[at + 1..]);
        assert SplitsAt(s, at);
        assert s[..at][0] == s[0];
        SplitsAtShift(s, at - 1);
      }
      if IsPlain(s[0]) && LocalRest(u) {
        var at :| SplitsAt(u, at);
        SplitsAtShift(s, at);
        assert SplitsAt(s, at + 1);
      }
    }
  }

  // ---------------------------------------------------------------------------
  // handleSubmit
  // ---------------------------------------------------------------------------

  /** `emails[giver]`, absent when the giver has no entry. */
  function Lookup(emails: map<string, string>, giver: string): Option<string>
  {
    if giver in emails then Some(emails[giver]) else None
  }

  /** The message `handleSubmit` records for one giver, if any. */
  function EmailError(emails: map<string, string>, giver: string): Option<string>
  {
    var email := Lookup(emails, giver);
    if email == None || email == Some("") then Some(EmailRequired)
    else if !ValidateEmail(email.value) then Some(InvalidEmailFormat)
    else None
  }

  /** The `newErrors` dictionary after `matches.forEach` has visited every match. */
  function SubmitErrors(matches: seq<Match>, emails: map<string, string>): map<string, string>
    decreases |matches|
  {
    if matches == [] then map[]
    else
      var errs := SubmitErrors(matches[..|matches| - 1], emails);
      var giver := matches[|matches| - 1].giver;
      match EmailError(emails, giver)
      case None => errs
      case Some(message) => errs[giver := message]
  }

  /**
   * The errors found on submit, giver by giver: a name has an entry exactly
   * when it is a giver whose address is missing, empty or rejected, and the
   * entry is that giver's message. Which match of a repeated giver is visited
   * last does not matter, since the message depends on the name alone.
   */
  lemma {:induction false} SubmitErrorsByGiver(matches: seq<Match>, emails: map<string, string>)
    ensures var errs := SubmitErrors(matches, emails);
            forall g :: (g in errs <==> g in Givers(matches) && EmailError(emails, g).Some?)
                        && (g in errs ==> errs[g] == EmailError(emails, g).value)
    decreases |matches|
  {
    if matches != [] {
      var init := matches[..|matches| - 1];
      SubmitErrorsByGiver(init, emails);
      assert Givers(matches) == Givers(init) + [matches[|matches| - 1].giver];
    }
  }

  /**
   * The errors found on submit: only givers have entries; a giver with no
   * email or an empty one gets "Email is required", one with an address the
   * pattern rejects gets "Invalid email format", and one with a valid address
   * gets no entry.
   */
  lemma SubmitErrorsSpec(matches: seq<Match>, emails: map<string, string>)
    ensures SubmitErrors(matches, emails).Keys <= Elements(Givers(matches))
    ensures forall i :: 0 <= i < |matches| ==>
              var g, errs := matches[i].giver, SubmitErrors(matches, emails);
              && (g !in emails || emails[g] == "" ==> g in errs && errs[g] == EmailRequired)
              && (g in emails && emails[g] != "" && !ValidateEmail(emails[g]) ==> g in errs && errs[g] == InvalidEmailFormat)
              && (g in emails && ValidateEmail(emails[g]) ==> g !in errs)
  {
    SubmitErrorsByGiver(matches, emails);
    forall i | 0 <= i < |matches| ensures matches[i].giver in Givers(matches) {
      assert Givers(matches)[i] == matches[i].giver;
    }
  }

  /** `matches.map((match) => ({ ...match, email: emails[match.giver] }))` */
  function WithEmails(matches: seq<Match>, emails: map<string, string>): (r: seq<Match>)
    ensures |r| == |matches|
    ensures forall i :: 0 <= i < |r| ==> r[i] == matches[i].(email := Lookup(emails, matches[i].giver))
  {
    seq(|matches|, i requires 0 <= i < |matches| => matches[i].(email := Lookup(emails, matches[i].giver)))
  }

  /**
   * When submit finds no error, the annotated list keeps every pairing in
   * order and gives each giver the valid address entered for them.
   */
  lemma NoErrorsMeansValidEmails(matches: seq<Match>, emails: map<string, string>)
    requires SubmitErrors(matches, emails) == map[]
    ensures Givers(WithEmails(matches, emails)) == Givers(matches)
    ensures Receivers(WithEmails(matches, emails)) == Receivers(matches)
    ensures forall i :: 0 <= i < |matches| ==>
              && matches[i].giver in emails
              && WithEmails(matches, emails)[i].email == Some(emails[matches[i].giver])
              && ValidateEmail(emails[matches[i].giver])
  {
    SubmitErrorsSpec(matches, emails);
  }

  // ---------------------------------------------------------------------------
  // The component
  // ---------------------------------------------------------------------------

  /** The email form's state: the matches it was given, the address typed for each giver, and the errors shown. */
  class EmailForm {
    const matches: seq<Match>
    var emails: map<string, string>
    var errors: map<string, string>

    /** Every giver starts with an empty address and there are no errors. */
    constructor (matches: seq<Match>)
      ensures this.matches == matches
      ensures emails.Keys == Elements(Givers(matches))
      ensures forall g :: g in emails ==> emails[g] == ""
      ensures errors == map[]
    {
      this.matches := matches;
      emails := map g | g in Elements(Givers(matches)) :: "";
      errors := map[];
    }

    /** `handleEmailChange`: store the address and drop that giver's error, if one is shown. */
    method HandleEmailChange(giver: string, email: string)
      modifies this
      ensures emails == old(emails)[giver := email]
      ensures errors == if giver in old(errors) && old(errors)[giver] != "" then old(errors) - {giver} else old(errors)
      ensures giver in old(errors) && old(errors)[giver] != "" ==> giver !in errors
      ensures forall g :: g != giver ==> Lookup(emails, g) == Lookup(old(emails), g) && Lookup(errors, g) == Lookup(old(errors), g)
    {
      emails := emails[giver := email];
      if giver in errors && errors[giver] != "" {
        errors := errors - {giver};
      }
    }

    /**
     * `handleSubmit`: collect an error per giver; show them if there are
     * any, otherwise send on the matches annotated with their addresses
     * (returned here; `None` when nothing is sent).
     */
    method HandleSubmit() returns (sent: Option<seq<Match>>)
      modifies this`errors
      ensures var found := SubmitErrors(matches, emails);
        if |found| > 0 then errors == found && sent == None
        else errors == old(errors) && sent == Some(WithEmails(matches, emails))
    {
      var newErrors: map<string, string> := map[];
      var i := 0;
      while i < |matches|
        invariant 0 <= i <= |matches|
        invariant newErrors == SubmitErrors(matches[..i], emails)
      {
        var giver := matches[i].giver;
        var email := Lookup(emails, giver);
        if email == None || email == Some("") {
          newErrors := newErrors[giver := EmailRequired];
        } else if !ValidateEmail(email.value) {
          newErrors := newErrors[giver := InvalidEmailFormat];
        }
        assert matches[..i + 1][..i] == matches[..i];
        i := i + 1;
      }
      assert matches[..i] == matches;
      if |newErrors| > 0 {
        errors := newErrors;
        return None;
      }
      sent := Some(WithEmails(matches, emails));
    }
  }
}
