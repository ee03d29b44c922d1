/** The login and sign-up screens: the login validation chain (trimmed
    fields, then the email pattern, then the password length), the sign-up
    empty-field check, and the `loading` flag around the request. */
module Auth {
  import opened Wrappers
  import opened Strings
  import opened Seqs

  /** An `Alert.alert(title, message)`. */
  datatype Notice = Notice(title: string, message: string)

  /** The JSON body of the login request. */
  datatype Credentials = Credentials(email: string, password: string)

  /** The JSON body of the sign-up request. */
  datatype SignupBody = SignupBody(name: string, email: string, password: string)

  /** What the backend answers: a parsed `{ success, message }` (an absent
      message is the empty string), or nothing usable when the request or
      the JSON parsing throws. */
  datatype Reply = Answered(success: bool, message: string) | Unreachable

  /** What a screen does once the reply is in. */
  datatype Outcome = ReplaceRoute(route: string) | Alerted(notice: Notice)

  /** What pressing the submit button does. */
  datatype Submission<R> = Ignored | Rejected(notice: Notice) | Sent(request: R)

  const MissingLoginFields := Notice("Missing fields", "Please enter email and password.")
  const InvalidEmail := Notice("Invalid email", "Please enter a valid email address.")
  const PasswordTooShort := Notice("Password too short", "Password must be at least 6 characters.")
  const MissingSignupFields := Notice("Missing fields", "Please fill all fields.")
  const ConnectionError := Notice("Error", "Failed to connect to server.")
  const MinPasswordLength := 6
  const ProfileRoute := "/profile"

  // ----- the email pattern -----

  /** A run of the pattern's `[^\s@]+`: non-empty, no '@' and no whitespace. */
  predicate Plain(t: string) {
    t != [] && forall k :: 0 <= k < |t| ==> t[k] != '@' && !IsSpace(t[k])
  }

  /** `s` splits as `Plain '@' Plain '.' Plain` with the '@' at `i` and the
      '.' at `j`. */
  predicate EmailSplit(s: string, i: int, j: int) {
    && 0 < i < j < |s|
    && s[i] == '@' && s[j] == '.'
    && Plain(s[..i]) && Plain(s[i + 1..j]) && Plain(s[j + 1..])
  }

  /** `^[^\s@]+@[^\s@]+\.[^\s@]+$`. */
  ghost predicate MatchesEmailPattern(s: string) {
    exists i, j :: EmailSplit(s, i, j)
  }

  function CountOf(s: string, c: char): (n: nat)
    ensures n == 0 <==> c !in s
    ensures n <= |s|
  {
    if s == [] then 0 else (if s[0] == c then 1 else 0) + CountOf(s[1..], c)
  }

  lemma {:induction false} CountOfAppend(a: string, b: string, c: char)
    ensures CountOf(a + b, c) == CountOf(a, c) + CountOf(b, c)
  {
    if a != [] {
      assert (a + b)[1..] == a[1..] + b;
      CountOfAppend(a[1..], b, c);
    } else {
      assert a + b == b;
    }
  }

  /** The check written out: no whitespace, exactly one '@', not in first
      place, and a '.' after it with at least one character on each side. */
  predicate IsEmail(s: string) {
    && (forall k :: 0 <= k < |s| ==> !IsSpace(s[k]))
    && CountOf(s, '@') == 1
    && var i := FirstIndex(s, '@');
       0 < i && exists j | i + 1 < j < |s| - 1 :: s[j] == '.'
  }

  /** With a single occurrence of `c` at `i`, no other position holds `c`. */
  lemma SingleOccurrence(s: string, c: char, i: nat)
    requires i < |s| && s[i] == c && CountOf(s, c) == 1
    ensures forall k :: 0 <= k < |s| && k != i ==> s[k] != c
  {
    assert s == s[..i] + ([s[i]] + s[i + 1..]);
    CountOfAppend(s[..i], [s[i]] + s[i + 1..], c);
    CountOfAppend([s[i]], s[i + 1..], c);
    forall k | 0 <= k < |s| && k != i ensures s[k] != c {
      if k < i {
        assert s[k] == s[..i][k];
      } else {
        assert s[k] == s[i + 1..][k - i - 1];
      }
    }
  }

  /** Every string the written-out check accepts matches the pattern. */
  lemma IsEmailSound(s: string)
    requires IsEmail(s)
    ensures MatchesEmailPattern(s)
  {
    var i := FirstIndex(s, '@');
    var j :| i + 1 < j < |s| - 1 && s[j] == '.';
    SingleOccurrence(s, '@', i);
    assert Plain(s[..i]);
    assert Plain(s[i + 1..j]);
    assert Plain(s[j + 1..]);
    assert EmailSplit(s, i, j);
  }

  /** A string split as the pattern says has no white space, and its only
      '@' is the one at the split. */
  lemma SplitCharacters(s: string, i: int, j: int)
    requires EmailSplit(s, i, j)
    ensures forall k :: 0 <= k < |s| ==> !IsSpace(s[k]) && (k != i ==> s[k] != '@')
  {
    forall k | 0 <= k < |s| ensures !IsSpace(s[k]) && (k != i ==> s[k] != '@') {
      if k < i {
        assert s[k] == s[..i][k];
      } else if i < k < j {
        assert s[k] == s[i + 1..j][k - i - 1];
      } else if j < k {
        assert s[k] == s[j + 1..][k - j - 1];
      }
    }
  }

  /** Every string matching the pattern passes the written-out check. */
  lemma IsEmailComplete(s: string)
    requires MatchesEmailPattern(s)
    ensures IsEmail(s)
  {
    var i, j :| EmailSplit(s, i, j);
    SplitCharacters(s, i, j);
    OnlyOccurrence(s, '@', i);
    assert i + 1 < j < |s| - 1 && s[j] == '.';
  }

  /** A character found at `i` and nowhere else occurs once, first at `i`. */
  lemma OnlyOccurrence(s: string, c: char, i: nat)
    requires i < |s| && s[i] == c
    requires forall k :: 0 <= k < |s| && k != i ==> s[k] != c
    ensures CountOf(s, c) == 1 && FirstIndex(s, c) == i
  {
    assert s == s[..i] + ([s[i]] + s[i + 1..]);
    assert c !in s[..i];
    assert c !in s[i + 1..];
    CountOfAppend(s[..i], [s[i]] + s[i + 1..], c);
    CountOfAppend([s[i]], s[i + 1..], c);
  }

  /** The written-out check accepts exactly the strings the pattern matches. */
  lemma IsEmailMatchesPattern(s: string)
    ensures IsEmail(s) <==> MatchesEmailPattern(s)
  {
    if IsEmail(s) {
      IsEmailSound(s);
    }
    if MatchesEmailPattern(s) {
      IsEmailComplete(s);
    }
  }

  // ----- login -----

  /** The login checks, in order: both trimmed fields non-empty, the trimmed
      email well formed, the trimmed password at least six characters; the
      first failing check is the one reported, and the request carries the
      trimmed values. */
  function ValidateLogin(email: string, password: string): (r: Result<Credentials, Notice>)
    ensures r == Failure(MissingLoginFields) <==> IsBlank(email) || IsBlank(password)
    ensures r == Failure(InvalidEmail) <==>
              !IsBlank(email) && !IsBlank(password) && !IsEmail(Trim(email))
    ensures r == Failure(PasswordTooShort) <==>
              !IsBlank(email) && !IsBlank(password) && IsEmail(Trim(email)) && |Trim(password)| < MinPasswordLength
    ensures r.Success? ==> r.value == Credentials(Trim(email), Trim(password))
  {
    var cleanEmail := Trim(email);
    var cleanPassword := Trim(password);
    if cleanEmail == [] || cleanPassword == [] then Failure(MissingLoginFields)
    else if !IsEmail(cleanEmail) then Failure(InvalidEmail)
    else if |cleanPassword| < MinPasswordLength then Failure(PasswordTooShort)
    else Success(Credentials(cleanEmail, cleanPassword))
  }

  /** Validation only looks at the trimmed fields: trimming them first
      changes neither the verdict nor the request. */
  lemma LoginSeesTrimmedFields(email: string, password: string)
    ensures ValidateLogin(Trim(email), Trim(password)) == ValidateLogin(email, password)
  {
    TrimIdempotent(email);
    TrimIdempotent(password);
  }

  /** A login request goes out exactly when neither field is blank, the
      trimmed email matches the pattern and the trimmed password has at
      least six characters. */
  lemma LoginAcceptedIff(email: string, password: string)
    ensures ValidateLogin(email, password).Success? <==>
              && !IsBlank(email) && !IsBlank(password)
              && MatchesEmailPattern(Trim(email))
              && |Trim(password)| >= MinPasswordLength
  {
    IsEmailMatchesPattern(Trim(email));
  }

  /** An address the pattern accepts. */
  lemma EmailExample()
    ensures IsEmail("a@b.co")
  {
    assert EmailSplit("a@b.co", 1, 3);
    IsEmailMatchesPattern("a@b.co");
  }

  /** Addresses the pattern refuses: no '.' after the '@', nothing before
      the '@', two '@', a space inside. */
  lemma NotEmailExample()
    ensures !IsEmail("a@b") && !IsEmail("@b.co") && !IsEmail("a@@b.co") && !IsEmail("a b@c.de")
  {
    NoDotAfterAt();
    NothingBeforeAt();
    TwoAts();
    SpaceInside();
  }

  lemma SpaceInside()
    ensures !IsEmail("a b@c.de")
  {
    assert "a b@c.de"[1] == ' ';
  }

  lemma NoDotAfterAt()
    ensures !IsEmail("a@b")
  {
    assert "a@b"[1..] == "@b";
    assert FirstIndex("a@b", '@') == 1;
  }

  lemma NothingBeforeAt()
    ensures !IsEmail("@b.co")
  {
    assert FirstIndex("@b.co", '@') == 0;
  }

  lemma TwoAts()
    ensures !IsEmail("a@@b.co")
  {
    assert "a@@b.co" == "a@" + "@b.co";
    CountOfAppend("a@", "@b.co", '@');
    assert CountOf("a@", '@') >= 1 && CountOf("@b.co", '@') >= 1;
  }

  /** Once the trimmed email passes the check, the password alone decides:
      six trimmed characters are enough and five are one too few. */
  lemma LoginPasswordBoundary(email: string, password: string)
    requires !IsBlank(email) && IsEmail(Trim(email))
    ensures |Trim(password)| == MinPasswordLength ==> ValidateLogin(email, password).Success?
    ensures |Trim(password)| == MinPasswordLength - 1 ==> ValidateLogin(email, password) == Failure(PasswordTooShort)
  {
  }

  /** What follows the reply: `/profile` on success; otherwise the server's
      message, or the screen's fallback when there is none; a request that
      throws gives the connection error. */
  function Conclude(reply: Reply, failedTitle: string, fallback: string): (o: Outcome)
    requires fallback != []
    ensures o.ReplaceRoute? <==> reply.Answered? && reply.success
    ensures o.ReplaceRoute? ==> o.route == ProfileRoute
    ensures o.Alerted? ==> o.notice.message != []
    ensures reply.Unreachable? ==> o == Alerted(ConnectionError)
    ensures reply.Answered? && !reply.success ==>
              o.Alerted? && o.notice.title == failedTitle
              && (reply.message != [] ==> o.notice.message == reply.message)
              && (reply.message == [] ==> o.notice.message == fallback)
  {
    match reply
    case Unreachable => Alerted(ConnectionError)
    case Answered(success, message) =>
      if success then ReplaceRoute(ProfileRoute)
      else Alerted(Notice(failedTitle, if message != [] then message else fallback))
  }

  class LoginScreen {
    var email: string
    var password: string
    var loading: bool

    constructor ()
      ensures email == "" && password == "" && !loading
    {
      email := "";
      password := "";
      loading := false;
    }

    method SetEmail(text: string)
      modifies this`email
      ensures email == text
    {
      email := text;
    }

    method SetPassword(text: string)
      modifies this`password
      ensures password == text
    {
      password := text;
    }

    /** Pressing "Login": ignored while a request is pending (the button is
        disabled); otherwise the first failing check is alerted and nothing
        changes, or `loading` is raised and the trimmed credentials are sent. */
    method Submit() returns (s: Submission<Credentials>)
      modifies this`loading
      ensures old(loading) ==> s.Ignored? && loading
      ensures !old(loading) && ValidateLogin(email, password).Failure? ==>
                s == Rejected(ValidateLogin(email, password).error) && !loading
      ensures !old(loading) && ValidateLogin(email, password).Success? ==>
                s == Sent(ValidateLogin(email, password).value) && loading
    {
      if loading {
        return Ignored;
      }
      var v := ValidateLogin(email, password);
      match v
      case Failure(notice) =>
        s := Rejected(notice);
      case Success(request) =>
        loading := true;
        s := Sent(request);
    }

    /** The reply to a sent request: the outcome, and `loading` lowered on
        every path. */
    method Finish(reply: Reply) returns (o: Outcome)
      modifies this`loading
      ensures !loading
      ensures o == Conclude(reply, "Login failed", "Check credentials")
    {
      o := Conclude(reply, "Login failed", "Check credentials");
      loading := false;
    }
  }

  // ----- sign-up -----

  /** Sign-up only refuses an empty field; nothing is trimmed or checked for
      format, and the request carries the three values as typed. */
  function ValidateSignup(name: string, email: string, password: string): (r: Result<SignupBody, Notice>)
    ensures r.Failure? <==> name == [] || email == [] || password == []
    ensures r.Failure? ==> r.error == MissingSignupFields
    ensures r.Success? ==> r.value == SignupBody(name, email, password)
  {
    if name == [] || email == [] || password == [] then Failure(MissingSignupFields)
    else Success(SignupBody(name, email, password))
  }

  /** Whitespace-only values pass sign-up, which login would refuse as
      missing. */
  lemma SignupAcceptsBlank(name: string, email: string, password: string)
    requires name != [] && email != [] && password != []
    requires IsBlank(email) && IsBlank(password)
    ensures ValidateSignup(name, email, password) == Success(SignupBody(name, email, password))
    ensures ValidateLogin(email, password) == Failure(MissingLoginFields)
  {
  }

  class SignupScreen {
    var name: string
    var email: string
    var password: string
    var loading: bool

    constructor ()
      ensures name == "" && email == "" && password == "" && !loading
    {
      name := "";
      email := "";
      password := "";
      loading := false;
    }

    method SetName(text: string)
      modifies this`name
      ensures name == text
    {
      name := text;
    }

    method SetEmail(text: string)
      modifies this`email
      ensures email == text
    {
      email := text;
    }

    method SetPassword(text: string)
      modifies this`password
      ensures password == text
    {
      password := text;
    }

    /** Pressing "Create account": ignored while a request is pending; an
        empty field is alerted and `loading` left alone; otherwise `loading`
        is raised and the untrimmed values are sent. */
    method Submit() returns (s: Submission<SignupBody>)
      modifies this`loading
      ensures old(loading) ==> s.Ignored? && loading
      ensures !old(loading) && (name == [] || email == [] || password == []) ==>
                s == Rejected(MissingSignupFields) && !loading
      ensures !old(loading) && name != [] && email != [] && password != [] ==>
                s == Sent(SignupBody(name, email, password)) && loading
    {
      if loading {
        return Ignored;
      }
      var v := ValidateSignup(name, email, password);
      match v
      case Failure(notice) =>
        s := Rejected(notice);
      case Success(request) =>
        loading := true;
        s := Sent(request);
    }

    /** The reply to a sent request: the outcome, and `loading` lowered on
        every path. */
    method Finish(reply: Reply) returns (o: Outcome)
      modifies this`loading
      ensures !loading
      ensures o == Conclude(reply, "Signup failed", "Try again")
    {
      o := Conclude(reply, "Signup failed", "Try again");
      loading := false;
    }
  }
}
