/** The decision logic of `app/src/auth.py`: the sign-in lockout of
    `login_post` and the ordered checks of `register`. The database queries
    and the bcrypt comparison are inputs; the Flask layer (flash, redirect,
    `login_user`) is reduced to the message chosen, the page redirected to and
    the session's `login_type` entry. */
module Auth {
  import opened Wrappers

  // ---------------------------------------------------------------------------
  // Sign-in

  /** The table an account row comes from: `User` rows are students,
      `Teacher` rows are teachers. */
  datatype Role = Student | Teacher

  /** A `User` or `Teacher` row, reduced to its table and its
      `failed_signin_attempts` counter. */
  class Account {
    const role: Role
    var failedSigninAttempts: int

    constructor (role: Role)
      ensures this.role == role && failedSigninAttempts == 0
    {
      this.role := role;
      failedSigninAttempts := 0;
    }
  }

  /** The Flask session, reduced to its `login_type` entry. */
  class Session {
    var loginType: Option<string>

    constructor ()
      ensures loginType == None
    {
      loginType := None;
    }
  }

  /** The message `login_post` flashes. */
  datatype LoginMessage = MultipleRoles | NoSuchUser | Locked | IncorrectPassword | LoggedIn

  /** The text `login_post` flashes for a message. The longer texts are
      written sentence by sentence, which keeps the verifier's reasoning
      about them short. */
  function LoginText(m: LoginMessage): string {
    match m
    case MultipleRoles => "The email address is associated with multiple roles. " + "Please contact support."
    case NoSuchUser => "A user with this email does not exist!"
    case Locked =>
      "This account is locked. " + "Please contact support to unlock your account " + "and reset your password."
    case IncorrectPassword => "Incorrect password. " + "Try again or click Forgot password to reset it."
    case LoggedIn => "Successfully logged in! " + "Redirecting to dashboard..."
  }

  /** Different outcomes of `login_post` flash different texts, so the text
      tells the user which branch was taken. */
  lemma LoginTextDistinct(a: LoginMessage, b: LoginMessage)
    ensures LoginText(a) == LoginText(b) <==> a == b
  {
  }

  /** The page `login_post` redirects to. */
  datatype Page = LoginPage | Profile | TeacherPage

  /** An account whose counter exceeds this many failures is locked. */
  const MaxFailedAttempts := 5

  /** The value `login_post` stores in `session['login_type']` for a role. */
  function LoginTypeName(role: Role): string {
    match role
    case Student => "student"
    case Teacher => "teacher"
  }

  /** One sign-in attempt on an existing account whose counter is `attempts`:
      the message shown and the new counter. */
  function Attempt(attempts: int, passwordOk: bool): (r: (LoginMessage, int))
    ensures r.0 == Locked <==> attempts > MaxFailedAttempts
    ensures r.0 == LoggedIn <==> passwordOk && attempts <= MaxFailedAttempts
    ensures r.0 == IncorrectPassword <==> !passwordOk && attempts <= MaxFailedAttempts
    ensures r.0 == LoggedIn ==> r.1 == 0
    ensures r.0 == IncorrectPassword ==> r.1 == attempts + 1
    ensures r.0 == Locked ==> r.1 == attempts
  {
    if !passwordOk then
      if attempts > MaxFailedAttempts then (Locked, attempts) else (IncorrectPassword, attempts + 1)
    else if attempts <= MaxFailedAttempts then (LoggedIn, 0)
    else (Locked, attempts)
  }

  /** The account an email resolves to: the one row found when exactly one of
      the two tables has it, and none otherwise. */
  function Resolve(user: Account?, teacher: Account?): (account: Account?)
    ensures account != null <==> (user == null) != (teacher == null)
    ensures account != null ==> account == user || account == teacher
  {
    if teacher != null && user == null then teacher
    else if user != null && teacher == null then user
    else null
  }

  /** `login_post`: `user` and `teacher` are the rows the two tables hold for
      the submitted email, `passwordOk` the bcrypt comparison of the submitted
      password with the resolved account's hash. */
  method LoginPost(user: Account?, teacher: Account?, passwordOk: bool, session: Session)
    returns (message: LoginMessage, page: Page)
    requires user != null ==> user.role == Student
    requires teacher != null ==> teacher.role == Teacher
    modifies user, teacher, session
    ensures user != null && teacher != null ==>
      message == MultipleRoles && page == LoginPage && unchanged(user, teacher, session)
    ensures user == null && teacher == null ==>
      message == NoSuchUser && page == LoginPage && unchanged(session)
    ensures var account := Resolve(user, teacher);
      account != null ==>
        var r := Attempt(old(account.failedSigninAttempts), passwordOk);
        && message == r.0
        && account.failedSigninAttempts == r.1
        && session.loginType == (if message == LoggedIn then Some(LoginTypeName(account.role)) else old(session.loginType))
        && page == (if message != LoggedIn then LoginPage else if account.role == Student then Profile else TeacherPage)
  {
    var account: Account? := null;
    if teacher != null && user == null {
      account := teacher;
    } else if user != null && teacher == null {
      account := user;
    } else if user != null && teacher != null {
      return MultipleRoles, LoginPage;
    }

    if account == null || !passwordOk {
      if account != null {
        if account.failedSigninAttempts > MaxFailedAttempts {
          message := Locked;
        } else {
          message := IncorrectPassword;
          account.failedSigninAttempts := account.failedSigninAttempts + 1;
        }
      } else {
        message := NoSuchUser;
      }
      return message, LoginPage;
    }

    if account.failedSigninAttempts <= MaxFailedAttempts {
      account.failedSigninAttempts := 0;
      message := LoggedIn;
      if account.role == Student {
        session.loginType := Some("student");
        page := Profile;
      } else {
        session.loginType := Some("teacher");
        page := TeacherPage;
      }
    } else {
      message, page := Locked, LoginPage;
    }
  }

  /** A run of sign-in attempts on one account, `oks[i]` telling whether the
      `i`-th password was right: the messages shown and the final counter. */
  function Run(attempts: int, oks: seq<bool>): (r: (seq<LoginMessage>, int))
    ensures |r.0| == |oks|
    decreases |oks|
  {
    if oks == [] then ([], attempts)
    else
      var (m, next) := Attempt(attempts, oks[0]);
      var rest := Run(next, oks[1..]);
      ([m] + rest.0, rest.1)
  }

  /** `n` copies of `x`. */
  function Repeat<T>(x: T, n: nat): (s: seq<T>)
    ensures |s| == n && forall i | 0 <= i < n :: s[i] == x
  {
    if n == 0 then [] else [x] + Repeat(x, n - 1)
  }

  /** Running two batches of attempts one after the other is running their
      concatenation. */
  lemma {:induction false} RunAppend(attempts: int, a: seq<bool>, b: seq<bool>)
    ensures Run(attempts, a + b).0 == Run(attempts, a).0 + Run(Run(attempts, a).1, b).0
    ensures Run(attempts, a + b).1 == Run(Run(attempts, a).1, b).1
    decreases |a|
  {
    if a != [] {
      assert (a + b)[0] == a[0];
      assert (a + b)[1..] == a[1..] + b;
      RunAppend(Attempt(attempts, a[0]).1, a[1..], b);
    } else {
      assert a + b == b;
    }
  }

  /** While the counter stays at or below the threshold, every wrong password
      shows the incorrect-password message and adds one failure. */
  lemma {:induction false} WrongPasswordsCount(attempts: int, n: nat)
    requires 0 <= attempts && attempts + n <= MaxFailedAttempts + 1
    ensures Run(attempts, Repeat(false, n)) == (Repeat(IncorrectPassword, n), attempts + n)
    decreases n
  {
    if n > 0 {
      assert Repeat(false, n)[1..] == Repeat(false, n - 1);
      WrongPasswordsCount(attempts + 1, n - 1);
    }
  }

  /** A locked account stays locked: every later attempt, with the right
      password or not, shows the locked message and leaves the counter alone. */
  lemma {:induction false} LockedIsPermanent(attempts: int, oks: seq<bool>)
    requires attempts > MaxFailedAttempts
    ensures Run(attempts, oks) == (Repeat(Locked, |oks|), attempts)
    decreases |oks|
  {
    if oks != [] {
      LockedIsPermanent(attempts, oks[1..]);
    }
  }

  /** From a fresh account, six wrong passwords each show the
      incorrect-password message and the seventh shows the locked message. */
  lemma SeventhWrongPasswordLocks()
    ensures Run(0, Repeat(false, 7)) == (Repeat(IncorrectPassword, 6) + [Locked], 6)
  {
    assert Repeat(false, 7) == Repeat(false, 6) + [false];
    RunAppend(0, Repeat(false, 6), [false]);
    WrongPasswordsCount(0, 6);
    assert [false][1..] == [];
    var last := Run(6, [false]);
    assert Attempt(6, false) == (Locked, 6);
    assert last.0 == [Locked];
    assert last.1 == 6;
    assert Run(0, Repeat(false, 7)).0 == Repeat(IncorrectPassword, 6) + [Locked];
  }

  /** The counter of an account that starts within bounds never leaves
      `0 ..= MaxFailedAttempts + 1`. */
  lemma {:induction false} CounterBounded(attempts: int, oks: seq<bool>)
    requires 0 <= attempts <= MaxFailedAttempts + 1
    ensures 0 <= Run(attempts, oks).1 <= MaxFailedAttempts + 1
    decreases |oks|
  {
    if oks != [] {
      CounterBounded(Attempt(attempts, oks[0]).1, oks[1..]);
    }
  }

  // ---------------------------------------------------------------------------
  // Email pattern of `register`

  /** A character of the local part's class `[a-zA-Z0-9.!#$%&â€™*+/=?^_`{|}~-]`
      (the three characters `â`, `€`, `™` are a mis-decoded right quote). */
  predicate IsLocalChar(c: char) {
    || 'a' <= c <= 'z' || 'A' <= c <= 'Z' || '0' <= c <= '9'
    || c in ".!#$%&*+/=?^_`{|}~-"
    || c == '\U{E2}' || c == '\U{20AC}' || c == '\U{2122}'
  }

  /** A character of a domain label's class `[a-zA-Z0-9-]`. */
  predicate IsLabelChar(c: char) {
    'a' <= c <= 'z' || 'A' <= c <= 'Z' || '0' <= c <= '9' || c == '-'
  }

  /** The length of the longest prefix of local-part characters. */
  function LocalPrefix(s: string): (n: nat)
    ensures n <= |s|
    ensures forall k | 0 <= k < n :: IsLocalChar(s[k])
    ensures n < |s| ==> !IsLocalChar(s[n])
  {
    if s == [] || !IsLocalChar(s[0]) then 0 else 1 + LocalPrefix(s[1..])
  }

  /** Labels separated by single dots: non-empty, no dot at either end, no
      two dots in a row, nothing but label characters and dots. */
  predicate DottedLabels(d: string) {
    && |d| > 0 && d[0] != '.' && d[|d| - 1] != '.'
    && (forall k | 0 <= k < |d| :: IsLabelChar(d[k]) || d[k] == '.')
    && (forall k | 0 <= k < |d| - 1 :: d[k] == '.' ==> d[k + 1] != '.')
  }

  predicate HasDot(d: string) {
    exists k | 0 <= k < |d| :: d[k] == '.'
  }

  /** The whole text matches `[local]+@[label]+(?:\.[label]+)+`. */
  predicate EmailShape(s: string) {
    var n := LocalPrefix(s);
    0 < n < |s| && s[n] == '@' && DottedLabels(s[n + 1..]) && HasDot(s[n + 1..])
  }

  /** `re.search` with the anchored pattern: `^` holds only at the start, and
      `$` holds at the end or just before a final newline. */
  predicate EmailMatches(s: string) {
    EmailShape(s) || (|s| > 0 && s[|s| - 1] == '\n' && EmailShape(s[..|s| - 1]))
  }

  // The pattern read as a grammar, part by part.

  ghost predicate IsLabel(t: string) {
    |t| > 0 && forall k | 0 <= k < |t| :: IsLabelChar(t[k])
  }

  /** `[label]+(?:\.[label]+)*`: a label, then dot-label pairs. */
  ghost predicate LabelSeq(d: string)
    decreases |d|
  {
    || IsLabel(d)
    || exists i | 0 < i < |d| :: d[i] == '.' && IsLabel(d[..i]) && LabelSeq(d[i + 1..])
  }

  /** `[label]+(?:\.[label]+)+`: at least one dot-label pair after the first label. */
  ghost predicate Domain(d: string) {
    exists i | 0 < i < |d| :: d[i] == '.' && IsLabel(d[..i]) && LabelSeq(d[i + 1..])
  }

  /** `[local]+@` followed by a domain. */
  ghost predicate EmailPattern(s: string) {
    exists i | 0 < i < |s| ::
      && s[i] == '@'
      && (forall k | 0 <= k < i :: IsLocalChar(s[k]))
      && Domain(s[i + 1..])
  }

  /** A label followed by a dot and dotted labels is dotted labels. */
  lemma DottedJoin(d: string, i: int)
    requires 0 < i < |d| && d[i] == '.' && IsLabel(d[..i]) && DottedLabels(d[i + 1..])
    ensures DottedLabels(d)
  {
    var rest := d[i + 1..];
    forall k | 0 <= k < |d|
      ensures IsLabelChar(d[k]) || d[k] == '.'
    {
      if k < i { assert d[k] == d[..i][k]; } else if k > i { assert d[k] == rest[k - i - 1]; }
    }
    forall k | 0 <= k < |d| - 1
      ensures d[k] == '.' ==> d[k + 1] != '.'
    {
      if k < i {
        assert d[k] == d[..i][k];
      } else if k == i {
        assert d[k + 1] == rest[0];
      } else {
        assert d[k] == rest[k - i - 1] && d[k + 1] == rest[k - i];
      }
    }
    assert d[0] == d[..i][0];
    assert d[|d| - 1] == rest[|rest| - 1];
  }

  /** The executable check of dotted labels agrees with the grammar. */
  lemma {:induction false} DottedLabelsIsLabelSeq(d: string)
    ensures DottedLabels(d) <==> LabelSeq(d)
    decreases |d|
  {
    if LabelSeq(d) {
      if IsLabel(d) {
        assert DottedLabels(d);
      } else {
        var i :| 0 < i < |d| && d[i] == '.' && IsLabel(d[..i]) && LabelSeq(d[i + 1..]);
        DottedLabelsIsLabelSeq(d[i + 1..]);
        DottedJoin(d, i);
      }
    }
    if DottedLabels(d) && !IsLabel(d) {
      var i := FirstDot(d);
      var rest := d[i + 1..];
      assert IsLabel(d[..i]) by {
        forall k | 0 <= k < i ensures IsLabelChar(d[..i][k]) { assert d[..i][k] == d[k]; }
      }
      assert DottedLabels(rest) by {
        assert rest[0] == d[i + 1];
        assert rest[|rest| - 1] == d[|d| - 1];
        forall k | 0 <= k < |rest| ensures IsLabelChar(rest[k]) || rest[k] == '.' {
          assert rest[k] == d[k + i + 1];
        }
        forall k | 0 <= k < |rest| - 1 && rest[k] == '.' ensures rest[k + 1] != '.' {
          assert rest[k] == d[k + i + 1] && rest[k + 1] == d[k + i + 2];
        }
      }
      DottedLabelsIsLabelSeq(rest);
    }
  }

  /** The position of the first dot of dotted labels that are not one label. */
  function FirstDot(d: string): (i: nat)
    requires DottedLabels(d) && !IsLabel(d)
    ensures 0 < i < |d| - 1 && d[i] == '.'
    ensures forall k | 0 <= k < i :: d[k] != '.'
  {
    FirstDotFrom(d, 0)
  }

  function FirstDotFrom(d: string, j: nat): (i: nat)
    requires DottedLabels(d) && !IsLabel(d)
    requires j <= |d| && forall k | 0 <= k < j :: d[k] != '.'
    ensures j <= i < |d| - 1 && d[i] == '.'
    ensures forall k | 0 <= k < i :: d[k] != '.'
    decreases |d| - j
  {
    if j == |d| then
      assert false; j
    else if d[j] == '.' then j
    else FirstDotFrom(d, j + 1)
  }

  /** The executable domain check agrees with the grammar. */
  lemma DomainIff(d: string)
    ensures DottedLabels(d) && HasDot(d) <==> Domain(d)
  {
    DottedLabelsIsLabelSeq(d);
    if Domain(d) {
      var i :| 0 < i < |d| && d[i] == '.' && IsLabel(d[..i]) && LabelSeq(d[i + 1..]);
      assert LabelSeq(d);
    }
    if DottedLabels(d) && HasDot(d) {
      var k :| 0 <= k < |d| && d[k] == '.';
      assert !IsLabelChar(d[k]);
      assert !IsLabel(d);
    }
  }

  /** The email check accepts exactly the texts the pattern describes: a
      non-empty local part, `@`, a label and at least one more `.label`,
      optionally followed by one final newline. */
  lemma EmailMatchesPattern(s: string)
    ensures EmailMatches(s) <==>
      EmailPattern(s) || (|s| > 0 && s[|s| - 1] == '\n' && EmailPattern(s[..|s| - 1]))
  {
    EmailShapeIsPattern(s);
    if |s| > 0 {
      EmailShapeIsPattern(s[..|s| - 1]);
    }
  }

  lemma EmailShapeIsPattern(s: string)
    ensures EmailShape(s) <==> EmailPattern(s)
  {
    if EmailShape(s) {
      ShapeToPattern(s);
    }
    if EmailPattern(s) {
      PatternToShape(s);
    }
  }

  lemma ShapeToPattern(s: string)
    requires EmailShape(s)
    ensures EmailPattern(s)
  {
    var n := LocalPrefix(s);
    DomainIff(s[n + 1..]);
  }

  lemma PatternToShape(s: string)
    requires EmailPattern(s)
    ensures EmailShape(s)
  {
    var i :| 0 < i < |s| && s[i] == '@' && (forall k | 0 <= k < i :: IsLocalChar(s[k])) && Domain(s[i + 1..]);
    LocalPrefixAt(s, i);
    DomainIff(s[i + 1..]);
  }

  /** The longest local-part prefix stops at the first character outside the class. */
  lemma LocalPrefixAt(s: string, i: nat)
    requires i < |s| && !IsLocalChar(s[i]) && forall k | 0 <= k < i :: IsLocalChar(s[k])
    ensures LocalPrefix(s) == i
  {
  }

  // ---------------------------------------------------------------------------
  // Registration checks

  /** A registration request: the submitted form fields, whether the username
      and the email are already held by a `User` or `Teacher` row, and the
      suggestions `check_password_strength` returns for the password (empty
      when it returns `None`). */
  datatype Registration = Registration(
    name: string,
    username: string,
    email: string,
    confirmEmail: string,
    password: string,
    confirmPassword: string,
    usernameTaken: bool,
    emailTaken: bool,
    suggestions: seq<string>)

  /** The reasons `register` turns a request away. */
  datatype RegisterError =
    | NoName
    | UsernameTaken
    | NoUsername
    | EmailTaken
    | InvalidEmail
    | EmailMismatch
    | NoPassword
    | PasswordMismatch
    | WeakPassword(suggestions: seq<string>)

  /** The total length of some strings. */
  function TotalLength(parts: seq<string>): nat {
    if parts == [] then 0 else |parts[0]| + TotalLength(parts[1..])
  }

  /** `sep.join(parts)`: the parts in order, with `sep` between neighbours. */
  function Join(sep: string, parts: seq<string>): (r: string)
    ensures parts == [] ==> r == ""
    ensures |parts| == 1 ==> r == parts[0]
    ensures parts != [] ==> |r| == TotalLength(parts) + |sep| * (|parts| - 1)
    ensures parts != [] ==> r[..|parts[0]|] == parts[0]
  {
    if parts == [] then ""
    else if |parts| == 1 then parts[0]
    else parts[0] + sep + Join(sep, parts[1..])
  }

  /** Joining two non-empty lists is joining each and putting `sep` between. */
  lemma {:induction false} JoinAppend(sep: string, a: seq<string>, b: seq<string>)
    requires a != [] && b != []
    ensures Join(sep, a + b) == Join(sep, a) + sep + Join(sep, b)
    decreases |a|
  {
    assert (a + b)[0] == a[0];
    if |a| == 1 {
      assert (a + b)[1..] == b;
    } else {
      assert (a + b)[1..] == a[1..] + b;
      JoinAppend(sep, a[1..], b);
    }
  }

  /** The prefix of the weak-password message, before the suggestions. */
  const WeakPasswordPrefix := "Password is not strong enough. Here are some suggestions: "

  /** The text `register` flashes when it turns a request away. */
  function RegisterText(e: RegisterError): (t: string)
    ensures e.WeakPassword? <==> |t| >= |WeakPasswordPrefix| && t[..|WeakPasswordPrefix|] == WeakPasswordPrefix
    ensures e.WeakPassword? ==> t[|WeakPasswordPrefix|..] == Join(", ", e.suggestions)
  {
    match e
    case NoName => "You must provide your name."
    case UsernameTaken => "This username already exists."
    case NoUsername => "You must provide a username."
    case EmailTaken => "This email already exists."
    case InvalidEmail => "You must provide a valid email address."
    case EmailMismatch => "The emails do not match!"
    case NoPassword => "You must provide a password."
    case PasswordMismatch => "The passwords do not match!"
    case WeakPassword(suggestions) => WeakPasswordPrefix + Join(", ", suggestions)
  }

  /** Two rejections flash the same text exactly when they are the same
      rejection, except that weak-password messages agree whenever their
      joined suggestions do. */
  lemma RegisterTextDistinct(a: RegisterError, b: RegisterError)
    ensures RegisterText(a) == RegisterText(b) <==>
      if a.WeakPassword? && b.WeakPassword? then Join(", ", a.suggestions) == Join(", ", b.suggestions)
      else a == b
  {
  }

  /** The position of each check in the order `register` runs them. */
  function Position(e: RegisterError): (k: nat)
    ensures 1 <= k <= 9
  {
    match e
    case NoName => 1
    case UsernameTaken => 2
    case NoUsername => 3
    case EmailTaken => 4
    case InvalidEmail => 5
    case EmailMismatch => 6
    case NoPassword => 7
    case PasswordMismatch => 8
    case WeakPassword(_) => 9
  }

  /** The `k`-th check rejects the request. */
  predicate Rejects(f: Registration, k: nat) {
    match k
    case 1 => |f.name| == 0
    case 2 => f.usernameTaken
    case 3 => |f.username| == 0
    case 4 => f.emailTaken
    case 5 => !EmailMatches(f.email)
    case 6 => f.confirmEmail != f.email
    case 7 => |f.password| == 0
    case 8 => f.confirmPassword != f.password
    case 9 => f.suggestions != []
    case _ => false
  }

  /** The checks of `register`, in its order: the first one that rejects the
      request decides the message, and a request no check rejects passes on
      to account creation. */
  function ValidateRegistration(f: Registration): (r: Outcome<RegisterError>)
    ensures r.Fail? ==> Rejects(f, Position(r.error))
    ensures r.Pass? ==> forall k | 1 <= k <= 9 :: !Rejects(f, k)
    ensures r.Fail? ==> forall k | 1 <= k < Position(r.error) :: !Rejects(f, k)
    ensures r.Fail? && r.error.WeakPassword? ==> r.error.suggestions == f.suggestions
  {
    if |f.name| == 0 then Fail(NoName)
    else if f.usernameTaken then Fail(UsernameTaken)
    else if |f.username| == 0 then Fail(NoUsername)
    else if f.emailTaken then Fail(EmailTaken)
    else if !EmailMatches(f.email) then Fail(InvalidEmail)
    else if f.confirmEmail != f.email then Fail(EmailMismatch)
    else if |f.password| == 0 then Fail(NoPassword)
    else if f.confirmPassword != f.password then Fail(PasswordMismatch)
    else if f.suggestions != [] then Fail(WeakPassword(f.suggestions))
    else Pass
  }

  /** The verdict depends on nothing a check before the deciding one does not
      look at: two requests that agree on every check up to the failing one
      get the same error. */
  lemma FirstFailureDecides(f: Registration, g: Registration)
    requires ValidateRegistration(f).Fail? && !ValidateRegistration(f).error.WeakPassword?
    requires forall k | 1 <= k <= Position(ValidateRegistration(f).error) :: Rejects(f, k) == Rejects(g, k)
    ensures ValidateRegistration(g) == ValidateRegistration(f)
  {
  }
}
