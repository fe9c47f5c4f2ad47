/**
 * The institutional-address gate of the login page (app/login/page.tsx): the
 * `isValidEmail` pattern `^[a-zA-Z0-9._%+-]+@vitstudent\.ac\.in$` and the
 * start of `handleSubmit`, which refuses an address before any call to the
 * identity provider. Provider replies are parameters.
 */
module Login {
  import opened Wrappers

  /** The literal tail every accepted address ends with. */
  const Domain: string := "@vitstudent.ac.in"

  const DomainError: string := "Please use a valid @vitstudent.ac.in email address."
  const VerificationSent: string :=
    "Verification email sent. Please check your inbox and verify your email before logging in."

  /** The character class `[a-zA-Z0-9._%+-]` of the local part. */
  predicate IsLocalChar(c: char)
  {
    || 'a' <= c <= 'z'
    || 'A' <= c <= 'Z'
    || '0' <= c <= '9'
    || c == '.' || c == '_' || c == '%' || c == '+' || c == '-'
  }

  predicate AllLocalChars(s: string)
  {
    forall i :: 0 <= i < |s| ==> IsLocalChar(s[i])
  }

  /**
   * Runs the pattern left to right: local-part characters (at least one,
   * tracked by `seenLocal`) up to the first '@', then the rest must be the
   * domain text exactly and end the string.
   */
  predicate MatchFrom(s: string, seenLocal: bool)
  {
    if |s| == 0 then false
    else if s[0] == '@' then seenLocal && s[1..] == Domain[1..]
    else IsLocalChar(s[0]) && MatchFrom(s[1..], true)
  }

  /** A non-empty local part of allowed characters followed by the domain. */
  ghost predicate WellFormedAddress(s: string)
  {
    exists local :: |local| > 0 && AllLocalChars(local) && s == local + Domain
  }

  /** `isValidEmail(email)`: accepts exactly the well-formed institutional addresses. */
  predicate IsValidEmail(s: string): (r: bool)
    ensures r <==> WellFormedAddress(s)
  {
    MatchCorrect(s);
    MatchFrom(s, false)
  }

  lemma {:induction false} MatchFromSound(s: string, seenLocal: bool)
    requires MatchFrom(s, seenLocal)
    ensures exists local :: (seenLocal || |local| > 0) && AllLocalChars(local) && s == local + Domain
  {
    if s[0] == '@' {
      assert s == [] + Domain;
    } else {
      MatchFromSound(s[1..], true);
      var rest :| AllLocalChars(rest) && s[1..] == rest + Domain;
      var local := [s[0]] + rest;
      assert AllLocalChars(local) by {
        forall i | 0 <= i < |local|
          ensures IsLocalChar(local[i])
        {
          if i > 0 {
            assert local[i] == rest[i - 1];
          }
        }
      }
      assert s == local + Domain;
    }
  }

  lemma {:induction false} MatchFromComplete(local: string, seenLocal: bool)
    requires AllLocalChars(local) && (seenLocal || |local| > 0)
    ensures MatchFrom(local + Domain, seenLocal)
  {
    var s := local + Domain;
    if |local| == 0 {
      assert s == Domain;
    } else {
      assert s[0] == local[0];
      assert s[1..] == local[1..] + Domain;
      MatchFromComplete(local[1..], true);
    }
  }

  /** The left-to-right run of the pattern accepts exactly the well-formed institutional addresses. */
  lemma MatchCorrect(s: string)
    ensures MatchFrom(s, false) <==> WellFormedAddress(s)
  {
    if MatchFrom(s, false) {
      MatchFromSound(s, false);
    }
    if WellFormedAddress(s) {
      var local :| |local| > 0 && AllLocalChars(local) && s == local + Domain;
      MatchFromComplete(local, false);
    }
  }

  /** The same statement, with the local part given. */
  lemma ValidIffLocalPartAllowed(local: string)
    ensures IsValidEmail(local + Domain) <==> |local| > 0 && AllLocalChars(local)
  {
    assert IsValidEmail(local + Domain) <==> WellFormedAddress(local + Domain);
    if WellFormedAddress(local + Domain) {
      var l :| |l| > 0 && AllLocalChars(l) && local + Domain == l + Domain;
      assert l == (l + Domain)[..|l|];
      assert local == (local + Domain)[..|local|];
    }
  }

  /** An accepted address ends in the domain text exactly, in its original case. */
  lemma ValidEndsWithDomain(s: string)
    requires IsValidEmail(s)
    ensures |s| > |Domain| && s[|s| - |Domain|..] == Domain
  {
    assert WellFormedAddress(s);
    var local :| |local| > 0 && AllLocalChars(local) && s == local + Domain;
    assert s[|s| - |Domain|..] == Domain;
  }

  /** An accepted address has exactly one '@', the first character of the domain text. */
  lemma SingleAtSign(s: string)
    requires IsValidEmail(s)
    ensures forall k :: 0 <= k < |s| && s[k] == '@' ==> k == |s| - |Domain|
  {
    assert WellFormedAddress(s);
    var local :| |local| > 0 && AllLocalChars(local) && s == local + Domain;
    forall k | 0 <= k < |s| && s[k] == '@'
      ensures k == |s| - |Domain|
    {
      if k >= |local| {
        assert s[k] == Domain[k - |local|];
      }
    }
  }

  /** The local part may not contain '@', so an address with two '@' is refused. */
  lemma TwoAtSignsRejected(s: string, i: int, j: int)
    requires 0 <= i < j < |s| && s[i] == '@' && s[j] == '@'
    ensures !IsValidEmail(s)
  {
    if IsValidEmail(s) {
      SingleAtSign(s);
    }
  }

  /** The empty string and the bare domain (an empty local part) are refused. */
  lemma EmptyLocalPartRejected()
    ensures !IsValidEmail("")
    ensures !IsValidEmail(Domain)
  {
    ValidIffLocalPartAllowed("");
    assert "" + Domain == Domain;
  }

  /** The domain is matched case-sensitively: its upper-case spelling is refused. */
  lemma UpperCaseDomainRejected(local: string)
    ensures !IsValidEmail(local + "@VITSTUDENT.AC.IN")
  {
    var s := local + "@VITSTUDENT.AC.IN";
    if IsValidEmail(s) {
      ValidEndsWithDomain(s);
    }
  }

  /** The pattern is anchored at the end: appending any character to an accepted address gets it refused. */
  lemma TrailingCharacterRejected(s: string, c: char)
    requires IsValidEmail(s)
    ensures !IsValidEmail(s + [c])
  {
    ValidEndsWithDomain(s);
    var t := s + [c];
    var n := |Domain|;
    assert t[|t| - n..] == s[|s| - n..][1..] + [c];
    assert t[|t| - n..][0] == 'v';
    if IsValidEmail(t) {
      ValidEndsWithDomain(t);
    }
  }

  /** The dots of the domain are literal: "a@vitstudentXacXin" is refused. */
  lemma LiteralDotsExample()
    ensures !IsValidEmail("a@vitstudentXacXin")
  {
    var s := "a@vitstudentXacXin";
    if IsValidEmail(s) {
      ValidEndsWithDomain(s);
    }
  }

  /** An ordinary student address is accepted. */
  lemma AcceptedExample()
    ensures IsValidEmail("john.doe2024@vitstudent.ac.in")
  {
    var local := "john.doe2024";
    assert AllLocalChars(local);
    ValidIffLocalPartAllowed(local);
    assert "john.doe2024@vitstudent.ac.in" == local + Domain;
  }

  // ----- handleSubmit -----

  /** What one call to the identity provider answered. */
  datatype ProviderReply = Accepted | Rejected(message: string)

  datatype ProviderCall = SignIn(email: string, password: string) | SignUp(email: string, password: string) | SendVerification

  datatype LoginForm = LoginForm(email: string, password: string, isLogin: bool)

  /** The page after a submit: the error line shown, the provider calls made, and any navigation. */
  datatype LoginResult = LoginResult(error: string, calls: seq<ProviderCall>, redirect: Option<string>)

  /**
   * `handleSubmit`: clear the error; refuse an invalid address with the
   * domain message; otherwise sign in (and go to the list) or sign up and send
   * the verification mail, showing the provider's message on a rejection.
   */
  function HandleSubmit(form: LoginForm, signIn: ProviderReply, signUp: ProviderReply, verify: ProviderReply): (r: LoginResult)
    ensures r.calls == [] <==> !IsValidEmail(form.email)
    ensures !IsValidEmail(form.email) ==> r.error == DomainError && r.redirect == None
    ensures IsValidEmail(form.email) && form.isLogin ==> r.calls == [SignIn(form.email, form.password)]
    ensures IsValidEmail(form.email) && !form.isLogin ==> r.calls[0] == SignUp(form.email, form.password)
    ensures IsValidEmail(form.email) && form.isLogin && signIn.Rejected? ==> r.error == signIn.message
    ensures IsValidEmail(form.email) && !form.isLogin ==>
              r.calls == [SignUp(form.email, form.password)] + (if signUp.Accepted? then [SendVerification] else [])
    ensures IsValidEmail(form.email) && !form.isLogin ==>
              r.error == (if signUp.Rejected? then signUp.message else if verify.Rejected? then verify.message else VerificationSent)
    ensures r.redirect.Some? <==> IsValidEmail(form.email) && form.isLogin && signIn == Accepted
    ensures r.redirect.Some? ==> r.error == "" && r.redirect == Some("/experiences")
  {
    var cleared := "";
    if !IsValidEmail(form.email) then
      LoginResult(DomainError, [], None)
    else if form.isLogin then
      match signIn
      case Accepted => LoginResult(cleared, [SignIn(form.email, form.password)], Some("/experiences"))
      case Rejected(m) => LoginResult(m, [SignIn(form.email, form.password)], None)
    else
      match signUp
      case Rejected(m) => LoginResult(m, [SignUp(form.email, form.password)], None)
      case Accepted =>
        var calls := [SignUp(form.email, form.password), SendVerification];
        match verify
        case Accepted => LoginResult(VerificationSent, calls, None)
        case Rejected(m) => LoginResult(m, calls, None)
  }
}
