/**
 * UserModel (usermodel.cpp): the account table and the checks run at
 * registration and log-in.  Every check answers with a message: the literal
 * "Valid", or a rejection that starts with the cross mark U+2717 and a space.
 *
 * The registeredusers table is the field `rows`, in insertion order; the
 * SQLite connection handling around each statement is not modelled.  SHA-256
 * and the DNS MX lookup are parameters: `sha256` is fixed when the model is
 * built, and each email check is given the lookup's answer as a function of
 * the name looked up.
 */
module UserModel {
  import opened Wrappers
  import opened EmailFormat
  import opened Digest

  // ---------------------------------------------------------------- messages

  const Valid: string := "Valid"
  const Cross: string := "\U{2717} "

  const IncorrectPassword: string := Cross + "Incorrect password. Please check password"
  const EmailNotFound: string := Cross + "Email not found. Please check email address or register"
  const EmailTooLong: string := Cross + "Email address exceeds limit (255 characters)"
  const EmailMalformed: string := Cross + "Please enter a valid email address"
  const EmailInUse: string := Cross + "Email address already in use"
  const InvalidDomain: string := Cross + "Invalid domain. Please check email address"
  const PasswordTooShort: string := Cross + "Password must be 8 characters minimum"
  const UsernameTooLong: string := Cross + "Username must not exceed 20 characters"

  /** A rejection: the message starts with the cross mark and a space. */
  predicate IsRejection(msg: string) {
    |Cross| <= |msg| && msg[..|Cross|] == Cross
  }

  /** A well-formed answer is exactly one of "Valid" and a rejection. */
  predicate IsAnswer(msg: string) {
    (msg == Valid) != IsRejection(msg)
  }

  /** Each message the model can return is a well-formed answer. */
  lemma MessagesAreAnswers()
    ensures IsAnswer(Valid)
    ensures IsAnswer(IncorrectPassword) && IsAnswer(EmailNotFound)
    ensures IsAnswer(EmailTooLong) && IsAnswer(EmailMalformed)
    ensures IsAnswer(EmailInUse) && IsAnswer(InvalidDomain)
    ensures IsAnswer(PasswordTooShort) && IsAnswer(UsernameTooLong)
  {
    assert Valid[..|Cross|][0] != Cross[0];
  }

  // ------------------------------------------------------ length validators

  /**
   * QString::length: the number of UTF-16 code units, so a character above
   * U+FFFF (a surrogate pair) counts twice.
   */
  function Utf16Length(s: string): (n: nat)
    ensures |s| <= n <= 2 * |s|
    ensures n == |s| <==> forall i :: 0 <= i < |s| ==> s[i] <= '\U{FFFF}'
    ensures n == 2 * |s| <==> forall i :: 0 <= i < |s| ==> s[i] > '\U{FFFF}'
  {
    if s == [] then 0
    else (if s[0] <= '\U{FFFF}' then 1 else 2) + Utf16Length(s[1..])
  }

  /** Characters above U+FFFF count twice: four of them make a valid password, eleven too long a username. */
  lemma SurrogatePairsCountTwice()
    ensures IsValidPassword("\U{1F600}\U{1F600}\U{1F600}\U{1F600}") == Valid
    ensures IsValidUsername(seq(11, _ => '\U{1F600}')) == UsernameTooLong
  {
  }

  /** isValidPassword: a password needs at least 8 UTF-16 code units. */
  function IsValidPassword(password: string): (msg: string)
    ensures msg == Valid <==> Utf16Length(password) >= 8
    ensures msg != Valid ==> msg == PasswordTooShort
    ensures IsAnswer(msg)
  {
    MessagesAreAnswers();
    if Utf16Length(password) < 8 then PasswordTooShort else Valid
  }

  /** isValidUsername: a username may have at most 20 UTF-16 code units. */
  function IsValidUsername(username: string): (msg: string)
    ensures msg == Valid <==> Utf16Length(username) <= 20
    ensures msg != Valid ==> msg == UsernameTooLong
    ensures IsAnswer(msg)
  {
    MessagesAreAnswers();
    if Utf16Length(username) > 20 then UsernameTooLong else Valid
  }

  // ------------------------------------------------------------------ table

  /** One row of registeredusers: (Email, Username, Password). */
  datatype Row = Row(email: string, username: string, passwordHash: string)

  /** Some row carries this email. */
  ghost predicate Registered(rows: seq<Row>, email: string) {
    exists i :: 0 <= i < |rows| && rows[i].email == email
  }

  /** Row i is the first row that carries this email. */
  ghost predicate FirstRowFor(rows: seq<Row>, email: string, i: int) {
    && 0 <= i < |rows| && rows[i].email == email
    && forall j :: 0 <= j < i ==> rows[j].email != email
  }

  /** No two rows carry the same email. */
  ghost predicate EmailsUnique(rows: seq<Row>) {
    forall i, j :: 0 <= i < j < |rows| ==> rows[i].email != rows[j].email
  }

  /**
   * SELECT ... FROM registeredusers WHERE Email = :email, taking the first
   * row in insertion order.
   */
  function FindRow(rows: seq<Row>, email: string): (k: Option<nat>)
    ensures k.Some? ==> FirstRowFor(rows, email, k.value)
    ensures k.None? <==> !Registered(rows, email)
  {
    if rows == [] then None
    else if rows[0].email == email then Some(0)
    else match FindRow(rows[1..], email)
      case None => None
      case Some(j) => Some(j + 1)
  }

  /** Appending a row registers its email. */
  lemma AppendRegisters(rows: seq<Row>, row: Row)
    ensures Registered(rows + [row], row.email)
  {
    assert (rows + [row])[|rows|].email == row.email;
  }

  /** Appending a row leaves the first row of every already present email in place. */
  lemma AppendKeepsFirstRow(rows: seq<Row>, row: Row, email: string, i: int)
    requires FirstRowFor(rows, email, i)
    ensures FirstRowFor(rows + [row], email, i)
  {
  }

  /** Appending a row with a new email makes it the first row for that email. */
  lemma AppendNewFirstRow(rows: seq<Row>, row: Row)
    requires !Registered(rows, row.email)
    ensures FirstRowFor(rows + [row], row.email, |rows|)
  {
  }

  /** Appending a row with a new email keeps the emails unique. */
  lemma AppendNewKeepsUnique(rows: seq<Row>, row: Row)
    requires EmailsUnique(rows) && !Registered(rows, row.email)
    ensures EmailsUnique(rows + [row])
  {
  }

  /** Appending a row whose email is already present breaks uniqueness. */
  lemma AppendDuplicateBreaksUnique(rows: seq<Row>, row: Row)
    requires Registered(rows, row.email)
    ensures !EmailsUnique(rows + [row])
  {
    var i :| 0 <= i < |rows| && rows[i].email == row.email;
    assert (rows + [row])[i].email == (rows + [row])[|rows|].email;
  }

  // --------------------------------------------------------------- DNS reply

  /** QDnsLookup's error(); all of its failure codes are treated alike. */
  datatype LookupError = NoError | LookupFailed

  /** One MX record: the mail exchanger and its preference. */
  datatype MailExchange = MailExchange(exchange: string, preference: nat)

  /** What the MX lookup reports once it has finished. */
  datatype MxReply = MxReply(error: LookupError, mailExchangeRecords: seq<MailExchange>)

  /** The domain can receive mail: no error and at least one MX record. */
  predicate AcceptsMail(reply: MxReply) {
    reply.error == NoError && |reply.mailExchangeRecords| > 0
  }

  // ------------------------------------------------------------------ model

  class UserModel {
    /** SHA-256 of a password's UTF-8 encoding (QCryptographicHash). */
    const sha256: string -> Sha256Digest
    /** The registeredusers table, in insertion order. */
    var rows: seq<Row>

    /** The model over the table already stored in users.db. */
    constructor (sha256: string -> Sha256Digest, stored: seq<Row>)
      ensures this.sha256 == sha256 && rows == stored
    {
      this.sha256 := sha256;
      rows := stored;
    }

    /**
     * addUser: inserts (email, username, hash of password) without checking
     * whether the email is already present.
     */
    method AddUser(email: string, username: string, password: string)
      modifies this
      ensures rows == old(rows) + [Row(email, username, HashPassword(sha256, password))]
      ensures !IsUniqueEmail(email)
      ensures old(IsUniqueEmail(email)) ==> VerifyUser(email, password) == Valid
      ensures old(IsUniqueEmail(email)) && EmailsUnique(old(rows)) ==> EmailsUnique(rows)
      ensures !old(IsUniqueEmail(email)) ==> !EmailsUnique(rows)
      ensures !old(IsUniqueEmail(email)) ==>
        forall p :: VerifyUser(email, p) == old(VerifyUser(email, p))
    {
      var hashed := HashPassword(sha256, password);
      var row := Row(email, username, hashed);
      ghost var before := rows;
      rows := rows + [row];
      AppendRegisters(before, row);
      if !Registered(before, email) {
        AppendNewFirstRow(before, row);
        if EmailsUnique(before) {
          AppendNewKeepsUnique(before, row);
        }
      } else {
        AppendDuplicateBreaksUnique(before, row);
        var i := FindRow(before, email).value;
        AppendKeepsFirstRow(before, row, email, i);
      }
    }

    /** isUniqueEmail: true exactly when no row carries the email. */
    function IsUniqueEmail(email: string): (unique: bool)
      reads this
      ensures unique <==> !Registered(rows, email)
    {
      FindRow(rows, email).None?
    }

    /**
     * verifyUser: compares the stored hash of the first row for the email
     * with the hash of the password.
     */
    function VerifyUser(email: string, password: string): (msg: string)
      reads this
      ensures msg == Valid <==>
        exists i :: FirstRowFor(rows, email, i) && rows[i].passwordHash == HashPassword(sha256, password)
      ensures msg == IncorrectPassword <==>
        exists i :: FirstRowFor(rows, email, i) && rows[i].passwordHash != HashPassword(sha256, password)
      ensures msg == EmailNotFound <==> !Registered(rows, email)
      ensures IsAnswer(msg)
    {
      MessagesAreAnswers();
      match FindRow(rows, email)
      case None => EmailNotFound
      case Some(i) =>
        if rows[i].passwordHash == HashPassword(sha256, password) then Valid else IncorrectPassword
    }

    /**
     * isValidEmail: length, then format, then uniqueness, then the MX lookup
     * of the domain, stopping at the first check that fails.  `mx` gives the
     * lookup's answer for the name it is asked about.
     */
    function IsValidEmail(email: string, mx: string -> MxReply): (msg: string)
      reads this
      ensures Utf16Length(email) > 255 ==> msg == EmailTooLong
      ensures Utf16Length(email) <= 255 && !MatchesPattern(email) ==> msg == EmailMalformed
      ensures Utf16Length(email) <= 255 && MatchesPattern(email) && Registered(rows, email) ==> msg == EmailInUse
      ensures msg == Valid <==>
        && Utf16Length(email) <= 255 && MatchesPattern(email) && !Registered(rows, email)
        && AcceptsMail(mx(DomainPart(email)))
      ensures msg == InvalidDomain <==>
        && Utf16Length(email) <= 255 && MatchesPattern(email) && !Registered(rows, email)
        && !AcceptsMail(mx(DomainPart(email)))
      ensures IsAnswer(msg)
    {
      MessagesAreAnswers();
      RecogniseIffMatches(email);
      if Utf16Length(email) > 255 then EmailTooLong
      else if !Recognise(email) then EmailMalformed
      else if !IsUniqueEmail(email) then EmailInUse
      else if AcceptsMail(mx(DomainPart(email))) then Valid
      else InvalidDomain
    }
  }

  // ------------------------------------------------------------- properties

  /** On a table with unique emails, log-in succeeds exactly for a row with the email and the password's hash. */
  lemma VerifyUserOnUniqueTable(m: UserModel, email: string, password: string)
    requires EmailsUnique(m.rows)
    ensures m.VerifyUser(email, password) == Valid <==>
      exists i :: 0 <= i < |m.rows| && m.rows[i].email == email
        && m.rows[i].passwordHash == HashPassword(m.sha256, password)
  {
  }

  /**
   * An address over 255 UTF-16 code units is rejected for its length whatever the
   * table holds and whatever the DNS would answer: neither is consulted.
   */
  lemma OverlongEmailDecidedByLength(m1: UserModel, m2: UserModel, email: string,
                                     mx1: string -> MxReply, mx2: string -> MxReply)
    requires Utf16Length(email) > 255
    ensures m1.IsValidEmail(email, mx1) == m2.IsValidEmail(email, mx2) == EmailTooLong
  {
  }

  /** A malformed address is rejected before the table or the DNS is consulted. */
  lemma MalformedEmailDecidedByFormat(m1: UserModel, m2: UserModel, email: string,
                                      mx1: string -> MxReply, mx2: string -> MxReply)
    requires Utf16Length(email) <= 255 && !MatchesPattern(email)
    ensures m1.IsValidEmail(email, mx1) == m2.IsValidEmail(email, mx2) == EmailMalformed
  {
  }

  /** A well-formed address already in the table is "in use" whatever the DNS answers. */
  lemma RegisteredEmailInUseWhateverDns(m: UserModel, email: string,
                                        mx1: string -> MxReply, mx2: string -> MxReply)
    requires Utf16Length(email) <= 255 && MatchesPattern(email) && !m.IsUniqueEmail(email)
    ensures m.IsValidEmail(email, mx1) == m.IsValidEmail(email, mx2) == EmailInUse
  {
  }

  /**
   * The DNS is asked about exactly the text after the '@' of the pattern:
   * two lookups that agree on that name lead to the same answer.
   */
  lemma DnsAskedOnlyAboutDomain(m: UserModel, email: string, at: int, dot: int,
                                mx1: string -> MxReply, mx2: string -> MxReply)
    requires PatternSplit(email, at, dot)
    requires mx1(email[at + 1..]) == mx2(email[at + 1..])
    ensures m.IsValidEmail(email, mx1) == m.IsValidEmail(email, mx2)
  {
    DomainPartOfMatch(email, at, dot);
  }

  /**
   * Validating the email and then adding the user, with no change to the
   * table in between, keeps the table free of duplicate emails; adding
   * without the check is what can break it.
   */
  lemma ValidatedInsertKeepsUnique(m: UserModel, email: string, username: string, password: string,
                                   mx: string -> MxReply)
    requires EmailsUnique(m.rows) && m.IsValidEmail(email, mx) == Valid
    ensures EmailsUnique(m.rows + [Row(email, username, HashPassword(m.sha256, password))])
  {
  }
}
