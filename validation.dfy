/**
 * The user-input validator: five rules applied in a fixed order, the first failure
 * winning. Strings are Go strings (sequences of runes); lengths are Go byte lengths.
 */
module Validation {
  import opened Wrappers
  import opened Text
  import opened Models

  /** The validator's errors; `Message` is the text the handlers send back with status 400. */
  datatype ValidationError =
    | MissingFields
    | InvalidEmailFormat
    | PasswordLength
    | PasswordClasses
    | NameLength
    | EmailRegistered
    | LookupFailed(cause: string)
  {
    function Message(): string {
      match this
      case MissingFields => "name, email, and password are required"
      case InvalidEmailFormat => "invalid email format"
      case PasswordLength => "password must be between 8 and 100 characters"
      case PasswordClasses =>
        "password must include at least one uppercase letter, one lowercase letter, one number, and one special character"
      case NameLength => "name must be between 3 and 50 characters"
      case EmailRegistered => "email is already registered"
      case LookupFailed(cause) => cause
    }
  }

  /** A field counts as given when something other than white space is left after trimming. */
  predicate IsBlank(s: string) {
    TrimSpace(s) == []
  }

  // ---------------------------------------------------------------------------
  // E-mail format: `(?i)^[a-z0-9._%+\-]+@[a-z0-9.\-]+\.[a-z]{2,}$`

  /**
   * A rune matched by `[a-z]` under Go's `(?i)` flag. Case folding adds `A`-`Z` and the two
   * non-ASCII runes whose fold orbit meets a-z: U+017F (long s, folds to `s`) and U+212A
   * (Kelvin sign, folds to `k`).
   */
  predicate IsFoldedLetter(c: char) {
    ('a' <= c <= 'z') || ('A' <= c <= 'Z') || c == 'ſ' || c == 'K'
  }

  predicate IsDigit(c: char) {
    '0' <= c <= '9'
  }

  /** The class `[a-z0-9._%+\-]` of the local part. */
  predicate IsLocalChar(c: char) {
    IsFoldedLetter(c) || IsDigit(c) || c == '.' || c == '_' || c == '%' || c == '+' || c == '-'
  }

  /** The class `[a-z0-9.\-]` of the domain. */
  predicate IsDomainChar(c: char) {
    IsFoldedLetter(c) || IsDigit(c) || c == '.' || c == '-'
  }

  predicate AllLocal(s: string) {
    forall i | 0 <= i < |s| :: IsLocalChar(s[i])
  }

  predicate AllDomain(s: string) {
    forall i | 0 <= i < |s| :: IsDomainChar(s[i])
  }

  predicate AllLetters(s: string) {
    forall i | 0 <= i < |s| :: IsFoldedLetter(s[i])
  }

  /**
   * The anchored pattern matches `s` when `s` splits at `at` and `dot` into a non-empty
   * local part, `@`, a non-empty domain, `.` and a top-level label of at least two letters.
   */
  ghost predicate EmailSplit(s: string, at: int, dot: int) {
    && 1 <= at && at + 2 <= dot && dot + 3 <= |s|
    && s[at] == '@' && AllLocal(s[..at])
    && AllDomain(s[at + 1..dot])
    && s[dot] == '.' && AllLetters(s[dot + 1..])
  }

  /** Declarative reading of the regular expression: some split of the text matches it. */
  ghost predicate MatchesEmailPattern(s: string) {
    exists at, dot :: EmailSplit(s, at, dot)
  }

  /**
   * The recogniser used by the validator: split at the first `@`, then split what
   * follows at its last `.`, and check the three pieces.
   */
  predicate IsValidEmail(s: string) {
    match IndexOf(s, '@')
    case None => false
    case Some(at) =>
      var domain := s[at + 1..];
      match LastIndexOf(domain, '.')
      case None => false
      case Some(d) =>
        && 1 <= at && AllLocal(s[..at])
        && 1 <= d && AllDomain(domain[..d])
        && |domain| - d >= 3 && AllLetters(domain[d + 1..])
  }

  /** Every text the recogniser accepts matches the pattern, split at the first `@` and the last `.`. */
  lemma RecogniserSound(s: string)
    requires IsValidEmail(s)
    ensures MatchesEmailPattern(s)
  {
    var at := IndexOf(s, '@').value;
    var domain := s[at + 1..];
    var d := LastIndexOf(domain, '.').value;
    var dot := at + 1 + d;
    assert s[at + 1..dot] == domain[..d];
    assert s[dot + 1..] == domain[d + 1..];
    assert EmailSplit(s, at, dot);
  }

  /** An `@` preceded only by local-part runes is the first `@`. */
  lemma FirstAtOfLocalPart(s: string, at: int)
    requires 0 <= at < |s| && s[at] == '@' && AllLocal(s[..at])
    ensures IndexOf(s, '@') == Some(at)
  {
    assert forall j | 0 <= j < at :: s[..at][j] == s[j];
  }

  /** A `.` followed only by letters is the last `.`. */
  lemma LastDotBeforeLetters(domain: string, d: int)
    requires 0 <= d < |domain| && domain[d] == '.' && AllLetters(domain[d + 1..])
    ensures LastIndexOf(domain, '.') == Some(d)
  {
    assert forall j | d < j < |domain| :: domain[j] == domain[d + 1..][j - d - 1];
  }

  /** The recogniser accepts when its two split points delimit pieces of the right classes and sizes. */
  lemma AcceptedAtSplit(s: string, at: nat, d: nat)
    requires IndexOf(s, '@') == Some(at) && LastIndexOf(s[at + 1..], '.') == Some(d)
    requires 1 <= at && AllLocal(s[..at])
    requires 1 <= d && AllDomain(s[at + 1..][..d])
    requires |s[at + 1..]| - d >= 3 && AllLetters(s[at + 1..][d + 1..])
    ensures IsValidEmail(s)
  {
  }

  /** Any split that matches the pattern is the one the recogniser finds. */
  lemma RecogniserComplete(s: string, at: int, dot: int)
    requires EmailSplit(s, at, dot)
    ensures IsValidEmail(s)
  {
    FirstAtOfLocalPart(s, at);
    var domain := s[at + 1..];
    var d := dot - at - 1;
    assert domain[d + 1..] == s[dot + 1..];
    LastDotBeforeLetters(domain, d);
    assert domain[..d] == s[at + 1..dot];
    AcceptedAtSplit(s, at, d);
  }

  /** The recogniser accepts exactly the texts the regular expression matches. */
  lemma IsValidEmailMatchesPattern(s: string)
    ensures IsValidEmail(s) <==> MatchesEmailPattern(s)
  {
    if IsValidEmail(s) {
      RecogniserSound(s);
    }
    if MatchesEmailPattern(s) {
      var at, dot :| EmailSplit(s, at, dot);
      RecogniserComplete(s, at, dot);
    }
  }

  /** An accepted address holds exactly one `@`. */
  lemma SingleAt(s: string)
    requires IsValidEmail(s)
    ensures exists at | 0 <= at < |s| :: s[at] == '@' && forall j | 0 <= j < |s| && s[j] == '@' :: j == at
  {
    var at := IndexOf(s, '@').value;
    var domain := s[at + 1..];
    var d := LastIndexOf(domain, '.').value;
    forall j | 0 <= j < |s| && s[j] == '@' ensures j == at {
    }
  }

  // ---------------------------------------------------------------------------
  // Password strength

  /** The punctuation the password rule counts as special. */
  const SpecialChars: string := "!@#$%^&*()-_=+[]{}|;:'\",.<>?/~`"

  predicate IsUpper(c: char) { 'A' <= c <= 'Z' }
  predicate IsLower(c: char) { 'a' <= c <= 'z' }
  /** A rune of `SpecialChars`. */
  predicate IsSpecial(c: char) {
    || c == '!' || c == '@' || c == '#' || c == '$' || c == '%' || c == '^' || c == '&' || c == '*'
    || c == '(' || c == ')' || c == '-' || c == '_' || c == '=' || c == '+' || c == '[' || c == ']'
    || c == '{' || c == '}' || c == '|' || c == ';' || c == ':' || c == '\'' || c == '"' || c == ','
    || c == '.' || c == '<' || c == '>' || c == '?' || c == '/' || c == '~' || c == '`'
  }

  /** `IsSpecial` is membership in the special set, spelled out rune by rune. */
  lemma IsSpecialIsMembership(c: char)
    ensures IsSpecial(c) <==> c in SpecialChars
  {
  }

  predicate HasUpper(p: string) { exists i | 0 <= i < |p| :: IsUpper(p[i]) }
  predicate HasLower(p: string) { exists i | 0 <= i < |p| :: IsLower(p[i]) }
  predicate HasDigit(p: string) { exists i | 0 <= i < |p| :: IsDigit(p[i]) }
  predicate HasSpecial(p: string) { exists i | 0 <= i < |p| :: IsSpecial(p[i]) }

  /** All four character classes occur in the password. */
  predicate HasAllClasses(p: string) {
    HasUpper(p) && HasLower(p) && HasDigit(p) && HasSpecial(p)
  }

  /** A rune that belongs to none of the four classes (a space, a non-ASCII letter, ...). */
  predicate IsNeutral(c: char) {
    !IsUpper(c) && !IsLower(c) && !IsDigit(c) && !IsSpecial(c)
  }

  /** The verdict of the password rule: the length test first, then the classes. */
  function PasswordCheck(p: string): Option<ValidationError> {
    if ByteLen(p) < 8 || ByteLen(p) > 100 then Some(PasswordLength)
    else if !HasAllClasses(p) then Some(PasswordClasses)
    else None
  }

  /** The rule as the source runs it: one pass over the runes setting four flags. */
  method ValidatePasswordStrength(password: string) returns (err: Option<ValidationError>)
    ensures err == PasswordCheck(password)
  {
    var uppercase, lowercase, number, special := false, false, false, false;
    if ByteLen(password) < 8 || ByteLen(password) > 100 {
      return Some(PasswordLength);
    }
    for i := 0 to |password|
      invariant uppercase <==> exists j | 0 <= j < i :: IsUpper(password[j])
      invariant lowercase <==> exists j | 0 <= j < i :: IsLower(password[j])
      invariant number <==> exists j | 0 <= j < i :: IsDigit(password[j])
      invariant special <==> exists j | 0 <= j < i :: IsSpecial(password[j])
    {
      var c := password[i];
      if 'A' <= c <= 'Z' {
        uppercase := true;
      } else if 'a' <= c <= 'z' {
        lowercase := true;
      } else if '0' <= c <= '9' {
        number := true;
      } else if IsSpecial(c) {
        special := true;
      }
    }
    if !uppercase || !lowercase || !number || !special {
      return Some(PasswordClasses);
    }
    return None;
  }

  /** A password whose byte length is outside 8..100 fails on length, whatever runes it holds. */
  lemma PasswordLengthComesFirst(p: string)
    requires ByteLen(p) < 8 || ByteLen(p) > 100
    ensures PasswordCheck(p) == Some(PasswordLength)
  {
  }

  /** With a valid length, the password passes exactly when all four classes occur. */
  lemma PasswordAcceptedIffAllClasses(p: string)
    requires 8 <= ByteLen(p) <= 100
    ensures PasswordCheck(p).None? <==> HasAllClasses(p)
    ensures !HasAllClasses(p) ==> PasswordCheck(p) == Some(PasswordClasses)
  {
  }

  /** Inserting a rune that fails `P` anywhere leaves "some rune satisfies `P`" unchanged. */
  lemma {:induction false} InsertKeepsOccurrence(a: string, c: char, b: string, P: char -> bool)
    requires !P(c)
    ensures (exists i | 0 <= i < |a + [c] + b| :: P((a + [c] + b)[i])) <==> (exists i | 0 <= i < |a + b| :: P((a + b)[i]))
  {
    var p, q := a + [c] + b, a + b;
    if i :| 0 <= i < |p| && P(p[i]) {
      var k := if i < |a| then i else i - 1;
      assert i != |a| && q[k] == p[i];
    }
    if i :| 0 <= i < |q| && P(q[i]) {
      var k := if i < |a| then i else i + 1;
      assert p[k] == q[i];
    }
  }

  /** Inserting a rune of no class anywhere changes neither class presence nor the verdict on classes. */
  lemma NeutralRuneIgnored(a: string, c: char, b: string)
    requires IsNeutral(c)
    ensures HasAllClasses(a + [c] + b) <==> HasAllClasses(a + b)
  {
    InsertKeepsOccurrence(a, c, b, IsUpper);
    InsertKeepsOccurrence(a, c, b, IsLower);
    InsertKeepsOccurrence(a, c, b, IsDigit);
    InsertKeepsOccurrence(a, c, b, IsSpecial);
  }

  // ---------------------------------------------------------------------------
  // Name length and the duplicate check

  /** The name rule, on the byte length of the name. */
  predicate NameLengthOk(name: string) {
    3 <= ByteLen(name) <= 50
  }

  /** For names of ASCII runes the byte length is the rune count: 3 and 50 pass, 2 and 51 fail. */
  lemma NameLengthBoundaries(name: string)
    requires IsAscii(name)
    ensures |name| == 3 || |name| == 50 ==> NameLengthOk(name)
    ensures |name| == 2 || |name| == 51 ==> !NameLengthOk(name)
  {
  }

  /** Some stored row carries this e-mail (the `SELECT EXISTS` query compares the column for equality). */
  predicate EmailStored(email: string, table: map<Id, User>) {
    exists id | id in table :: table[id].email == email
  }

  /**
   * The duplicate query against the users table. A failing query (`fault`) yields its error;
   * otherwise the answer is whether some row has this e-mail.
   */
  function EmailExists(email: string, table: map<Id, User>, fault: Option<string>): Result<bool, string> {
    match fault
    case Some(e) => Failure(e)
    case None => Success(EmailStored(email, table))
  }

  /** Once a row is stored, the query finds its e-mail. */
  lemma InsertedEmailIsFound(table: map<Id, User>, id: Id, row: User)
    ensures EmailExists(row.email, table[id := row], None) == Success(true)
  {
    assert table[id := row][id].email == row.email;
  }

  /** Once the only row holding an e-mail is removed, the query no longer finds it. */
  lemma RemovedEmailIsGone(table: map<Id, User>, id: Id, email: string)
    requires forall k | k in table && k != id :: table[k].email != email
    ensures EmailExists(email, table - {id}, None) == Success(false)
  {
  }

  /**
   * A record accepted against one table is refused on creation against any table that
   * already holds its e-mail: only the duplicate rule looks at the table.
   */
  lemma KnownEmailRejected(user: User, t1: map<Id, User>, t2: map<Id, User>)
    requires ValidateUserInput(user, t1, None, false).None?
    requires EmailStored(user.email, t2)
    ensures ValidateUserInput(user, t2, None, false) == Some(EmailRegistered)
  {
    assert !(IsBlank(user.name) || IsBlank(user.email) || IsBlank(user.password));
    assert IsValidEmail(user.email) && PasswordCheck(user.password).None? && NameLengthOk(user.name);
  }

  // ---------------------------------------------------------------------------
  // The validator

  /**
   * Checks a candidate record; `None` is Go's nil error. The duplicate-e-mail query is made
   * only on creation (`!isUpdate`) and only once every other rule has passed.
   */
  function ValidateUserInput(user: User, table: map<Id, User>, lookupFault: Option<string>, isUpdate: bool)
    : Option<ValidationError>
  {
    if IsBlank(user.name) || IsBlank(user.email) || IsBlank(user.password) then Some(MissingFields)
    else if !IsValidEmail(user.email) then Some(InvalidEmailFormat)
    else if PasswordCheck(user.password).Some? then PasswordCheck(user.password)
    else if !NameLengthOk(user.name) then Some(NameLength)
    else if !isUpdate then
      match EmailExists(user.email, table, lookupFault)
      case Failure(e) => Some(LookupFailed(e))
      case Success(exists_) => if exists_ then Some(EmailRegistered) else None
    else None
  }

  /**
   * The rules run in order and the first failure decides the error, stated on the
   * predicates the validator applies.
   */
  lemma RuleOrder(user: User, table: map<Id, User>, lookupFault: Option<string>, isUpdate: bool)
    ensures var r := ValidateUserInput(user, table, lookupFault, isUpdate);
      && var blank := IsBlank(user.name) || IsBlank(user.email) || IsBlank(user.password);
      && var format := IsValidEmail(user.email);
      && var strong := PasswordCheck(user.password).None?;
      && var named := NameLengthOk(user.name);
      && (r == Some(MissingFields) <==> blank)
      && (r == Some(InvalidEmailFormat) <==> !blank && !format)
      && (r == Some(PasswordLength) <==> !blank && format && (ByteLen(user.password) < 8 || ByteLen(user.password) > 100))
      && (r == Some(PasswordClasses) <==> !blank && format && 8 <= ByteLen(user.password) <= 100 && !HasAllClasses(user.password))
      && (r == Some(NameLength) <==> !blank && format && strong && !named)
      && (r.Some? && r.value.LookupFailed? <==> !blank && format && strong && named && !isUpdate && lookupFault.Some?)
      && (r == Some(EmailRegistered) <==>
            !blank && format && strong && named && !isUpdate && lookupFault.None? && EmailStored(user.email, table))
      && (r.None? <==>
            !blank && format && strong && named && (!isUpdate ==> lookupFault.None? && !EmailStored(user.email, table)))
  {
    var r := ValidateUserInput(user, table, lookupFault, isUpdate);
    if IsBlank(user.name) || IsBlank(user.email) || IsBlank(user.password) {
      assert r == Some(MissingFields);
    } else if !IsValidEmail(user.email) {
      assert r == Some(InvalidEmailFormat);
    } else if PasswordCheck(user.password).Some? {
      assert r == PasswordCheck(user.password);
    } else if !NameLengthOk(user.name) {
      assert r == Some(NameLength);
    } else if isUpdate {
      assert r == None;
    } else if lookupFault.Some? {
      assert r == Some(LookupFailed(lookupFault.value));
    } else if EmailStored(user.email, table) {
      assert r == Some(EmailRegistered);
    } else {
      assert r == None;
    }
  }

  /**
   * The same order on the declarative definitions: a field is missing when it is all white
   * space, and the format rule fails when the regular expression does not match.
   */
  lemma FirstFailureWins(user: User, table: map<Id, User>, lookupFault: Option<string>, isUpdate: bool)
    ensures var r := ValidateUserInput(user, table, lookupFault, isUpdate);
      && var blank := AllSpace(user.name) || AllSpace(user.email) || AllSpace(user.password);
      && var format := MatchesEmailPattern(user.email);
      && var strong := PasswordCheck(user.password).None?;
      && var named := NameLengthOk(user.name);
      && (r == Some(MissingFields) <==> blank)
      && (r == Some(InvalidEmailFormat) <==> !blank && !format)
      && (r.Some? && r.value in {PasswordLength, PasswordClasses} <==> !blank && format && !strong)
      && (r == Some(NameLength) <==> !blank && format && strong && !named)
      && (r.Some? && r.value.LookupFailed? <==> !blank && format && strong && named && !isUpdate && lookupFault.Some?)
      && (r == Some(EmailRegistered) <==>
            !blank && format && strong && named && !isUpdate && lookupFault.None? && EmailStored(user.email, table))
      && (r.None? <==>
            !blank && format && strong && named && (!isUpdate ==> lookupFault.None? && !EmailStored(user.email, table)))
  {
    RuleOrder(user, table, lookupFault, isUpdate);
    TrimSpaceEmptyIffAllSpace(user.name);
    TrimSpaceEmptyIffAllSpace(user.email);
    TrimSpaceEmptyIffAllSpace(user.password);
    IsValidEmailMatchesPattern(user.email);
  }

  /** Whatever the validator accepts satisfies every rule, stated on the declarative definitions. */
  lemma AcceptedInputIsWellFormed(user: User, table: map<Id, User>, lookupFault: Option<string>, isUpdate: bool)
    requires ValidateUserInput(user, table, lookupFault, isUpdate).None?
    ensures !AllSpace(user.name) && !AllSpace(user.email) && !AllSpace(user.password)
    ensures MatchesEmailPattern(user.email)
    ensures 8 <= ByteLen(user.password) <= 100 && HasAllClasses(user.password)
    ensures 3 <= ByteLen(user.name) <= 50
    ensures !isUpdate ==> lookupFault.None? && forall id | id in table :: table[id].email != user.email
  {
    FirstFailureWins(user, table, lookupFault, isUpdate);
  }

  /** Conversely, a record that satisfies every rule is accepted. */
  lemma WellFormedInputIsAccepted(user: User, table: map<Id, User>, lookupFault: Option<string>, isUpdate: bool)
    requires !AllSpace(user.name) && !AllSpace(user.email) && !AllSpace(user.password)
    requires MatchesEmailPattern(user.email)
    requires 8 <= ByteLen(user.password) <= 100 && HasAllClasses(user.password)
    requires 3 <= ByteLen(user.name) <= 50
    requires !isUpdate ==> lookupFault.None? && forall id | id in table :: table[id].email != user.email
    ensures ValidateUserInput(user, table, lookupFault, isUpdate) == None
  {
    FirstFailureWins(user, table, lookupFault, isUpdate);
  }

  /** A record that passes the first three rules but not the name rule gets the name-length error. */
  lemma NameRuleDecides(user: User, table: map<Id, User>, lookupFault: Option<string>, isUpdate: bool)
    requires !AllSpace(user.name) && !AllSpace(user.email) && !AllSpace(user.password)
    requires MatchesEmailPattern(user.email)
    requires 8 <= ByteLen(user.password) <= 100 && HasAllClasses(user.password)
    requires ByteLen(user.name) < 3 || ByteLen(user.name) > 50
    ensures ValidateUserInput(user, table, lookupFault, isUpdate) == Some(NameLength)
  {
    FirstFailureWins(user, table, lookupFault, isUpdate);
  }

  /**
   * On creation, once the first four rules pass, a failing duplicate query is the verdict
   * itself (its `Message` is the query's own error text).
   */
  lemma LookupErrorPassedThrough(user: User, table: map<Id, User>, cause: string)
    requires !IsBlank(user.name) && !IsBlank(user.email) && !IsBlank(user.password)
    requires IsValidEmail(user.email) && PasswordCheck(user.password).None? && NameLengthOk(user.name)
    ensures ValidateUserInput(user, table, Some(cause), false) == Some(LookupFailed(cause))
  {
  }

  /** A blank name, e-mail or password is reported as missing, on update as on creation. */
  lemma PasswordRequiredOnUpdate(user: User, table: map<Id, User>, lookupFault: Option<string>, isUpdate: bool)
    requires AllSpace(user.name) || AllSpace(user.email) || AllSpace(user.password)
    ensures ValidateUserInput(user, table, lookupFault, isUpdate) == Some(MissingFields)
  {
    TrimSpaceEmptyIffAllSpace(user.name);
    TrimSpaceEmptyIffAllSpace(user.email);
    TrimSpaceEmptyIffAllSpace(user.password);
  }

  /** On update the stored rows and the lookup are never consulted. */
  lemma UpdateIgnoresTable(user: User, t1: map<Id, User>, f1: Option<string>, t2: map<Id, User>, f2: Option<string>)
    ensures ValidateUserInput(user, t1, f1, true) == ValidateUserInput(user, t2, f2, true)
  {
  }
}
