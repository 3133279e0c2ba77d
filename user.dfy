/**
 * The `User` entity (`ch.bzz.model.User`): a mutable record of seven
 * nullable fields whose identity, for `equals` and `hashCode`, is its id
 * alone. The password hash and salt are base 64 text.
 */
module UserModel {
  import opened Wrappers
  import opened JavaLang
  import opened IsoDate

  /** The fields of a user at one moment; `None` is Java's `null`. */
  datatype UserState = UserState(
    id: Option<Int32>,
    firstname: Option<string>,
    lastname: Option<string>,
    dateOfBirth: Option<LocalDate>,
    email: Option<string>,
    passwordHash: Option<string>,
    passwordSalt: Option<string>)

  /** The columns the `users` table declares not null are all present. */
  predicate Complete(u: UserState) {
    u.firstname.Some? && u.lastname.Some? && u.dateOfBirth.Some?
      && u.email.Some? && u.passwordHash.Some? && u.passwordSalt.Some?
  }

  /** How `%s` writes a nullable `LocalDate`: its `toString`. */
  function ShowDate(o: Option<LocalDate>): (s: string)
    ensures NoneIn(s, {'|'})
  {
    match o
    case None => "null"
    case Some(d) => FormatChars(d, {'|'}); Format(d)
  }

  /** `User.toString`: `id | firstname | lastname | dateOfBirth | email`. */
  function Render(u: UserState): string {
    ShowInt(u.id) + " | " + ShowStr(u.firstname) + " | " + ShowStr(u.lastname) + " | "
      + ShowDate(u.dateOfBirth) + " | " + ShowStr(u.email)
  }

  /** The five columns of the rendering, each with the blanks around its bars. */
  function Columns(u: UserState): seq<string> {
    [ShowInt(u.id) + " ", " " + ShowStr(u.firstname) + " ", " " + ShowStr(u.lastname) + " ",
     " " + ShowDate(u.dateOfBirth) + " ", " " + ShowStr(u.email)]
  }

  /** The rendering is the five columns glued with bars. */
  lemma RenderIsJoin(u: UserState)
    ensures Render(u) == Join(Columns(u), '|')
  {
    BarColumns(ShowInt(u.id), ShowStr(u.firstname), ShowStr(u.lastname), ShowDate(u.dateOfBirth), ShowStr(u.email));
  }

  /** The rendering lists id, names, date of birth and email in that order:
      cutting it at the bars gives them back when no name or email holds a
      bar. */
  lemma RenderColumns(u: UserState)
    ensures NoneIn(ShowStr(u.firstname), {'|'}) && NoneIn(ShowStr(u.lastname), {'|'}) && NoneIn(ShowStr(u.email), {'|'})
            ==> Pieces(Render(u), {'|'}) == Columns(u)
  {
    if NoneIn(ShowStr(u.firstname), {'|'}) && NoneIn(ShowStr(u.lastname), {'|'}) && NoneIn(ShowStr(u.email), {'|'}) {
      var c := Columns(u);
      RenderIsJoin(u);
      forall i | 0 <= i < |c|
        ensures NoneIn(c[i], {'|'})
      {
      }
      PiecesJoin(c, '|', {'|'});
    }
  }

  /** The rendering never depends on the password hash or salt: two users
      that differ only there are written alike. */
  lemma RenderHidesPassword(u: UserState, hash: Option<string>, salt: Option<string>)
    ensures Render(u.(passwordHash := hash, passwordSalt := salt)) == Render(u)
  {
  }

  class User {
    var id: Option<Int32>
    var firstname: Option<string>
    var lastname: Option<string>
    var dateOfBirth: Option<LocalDate>
    var email: Option<string>
    var passwordHash: Option<string>
    var passwordSalt: Option<string>

    /** The fields as one value. */
    function State(): UserState
      reads this
    {
      UserState(id, firstname, lastname, dateOfBirth, email, passwordHash, passwordSalt)
    }

    /** `new User()`: every field null. */
    constructor Empty()
      ensures State() == UserState(None, None, None, None, None, None, None)
    {
      id, firstname, lastname, dateOfBirth := None, None, None, None;
      email, passwordHash, passwordSalt := None, None, None;
    }

    /** `new User(id, firstname, lastname, dateOfBirth, email, passwordHash,
        passwordSalt)` stores exactly the given values. */
    constructor (id: Option<Int32>, firstname: Option<string>, lastname: Option<string>,
                 dateOfBirth: Option<LocalDate>, email: Option<string>,
                 passwordHash: Option<string>, passwordSalt: Option<string>)
      ensures State() == UserState(id, firstname, lastname, dateOfBirth, email, passwordHash, passwordSalt)
    {
      this.id := id;
      this.firstname := firstname;
      this.lastname := lastname;
      this.dateOfBirth := dateOfBirth;
      this.email := email;
      this.passwordHash := passwordHash;
      this.passwordSalt := passwordSalt;
    }

    method SetId(v: Option<Int32>)
      modifies this
      ensures State() == old(State()).(id := v)
    {
      id := v;
    }

    method SetFirstname(v: Option<string>)
      modifies this
      ensures State() == old(State()).(firstname := v)
    {
      firstname := v;
    }

    method SetLastname(v: Option<string>)
      modifies this
      ensures State() == old(State()).(lastname := v)
    {
      lastname := v;
    }

    method SetDateOfBirth(v: Option<LocalDate>)
      modifies this
      ensures State() == old(State()).(dateOfBirth := v)
    {
      dateOfBirth := v;
    }

    method SetEmail(v: Option<string>)
      modifies this
      ensures State() == old(State()).(email := v)
    {
      email := v;
    }

    method SetPasswordHash(v: Option<string>)
      modifies this
      ensures State() == old(State()).(passwordHash := v)
    {
      passwordHash := v;
    }

    method SetPasswordSalt(v: Option<string>)
      modifies this
      ensures State() == old(State()).(passwordSalt := v)
    {
      passwordSalt := v;
    }

    /** `equals`: the same object, or another user with the same non-null id. */
    predicate Equals(other: User?)
      reads this, other
      ensures Equals(other) ==> other != null && HashCode() == other.HashCode()
    {
      this == other || (other != null && id.Some? && id == other.id)
    }

    /** `hashCode`: the id's value, 0 for a null id. */
    function HashCode(): (h: Int32)
      reads this
      ensures id.Some? ==> h == id.value
      ensures id.None? ==> h == 0
    {
      if id.Some? then id.value else 0
    }

    /** `toString`: id, names, date of birth and email, in that order when
        cut at the bars; the password fields never show. */
    function ToString(): (s: string)
      reads this
      ensures NoneIn(ShowStr(firstname), {'|'}) && NoneIn(ShowStr(lastname), {'|'}) && NoneIn(ShowStr(email), {'|'})
              ==> Pieces(s, {'|'}) == Columns(State())
      ensures s == Render(State().(passwordHash := None, passwordSalt := None))
    {
      RenderColumns(State());
      Render(State())
    }
  }

  /** Equality is an equivalence on users. */
  lemma EqualsIsEquivalence(a: User, b: User, c: User)
    ensures a.Equals(a)
    ensures a.Equals(b) ==> b.Equals(a)
    ensures a.Equals(b) && b.Equals(c) ==> a.Equals(c)
  {
  }

  /** A user without an id equals no other user. */
  lemma NullIdEqualsOnlyItself(a: User, b: User)
    requires a.id.None?
    ensures a.Equals(b) <==> a == b
  {
  }

  /** Two distinct users are equal exactly when they carry the same id. */
  lemma DistinctUsersEqualById(a: User, b: User)
    requires a != b
    ensures a.Equals(b) <==> a.id.Some? && b.id.Some? && a.id.value == b.id.value
  {
  }

  /** Equal users have equal hash codes. */
  lemma EqualsAgreesWithHashCode(a: User, b: User)
    requires a.Equals(b)
    ensures a.HashCode() == b.HashCode()
  {
  }
}
