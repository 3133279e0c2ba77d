/**
 * `CommandHandler`: the console commands of the library app. It keeps a
 * registry of the commands `executeCommand` can run, lists books with an
 * optional limit, imports a catalogue file into the database and creates
 * users from one line of arguments.
 */
module Commands {
  import opened Wrappers
  import opened JavaLang
  import IsoDate
  import Base64
  import opened BookModel
  import opened UserModel
  import opened FileHandler
  import opened Persistence

  /** The commands the registry holds: help, the title listing, the
      detailed listing and quit. */
  datatype Command = Help | ListTitles | ListDetailed | Quit

  /** The names `executeCommand` knows. */
  const CommandNames: set<string> := {"help", "listBooks", "list", "quit"}

  /** The registry `initializeCommands` builds: each name and the command
      registered under it. */
  const Registry: map<string, Command> :=
    map["help" := Help, "listBooks" := ListTitles, "list" := ListDetailed, "quit" := Quit]

  /** The registry knows exactly the four names, each under its own
      command: no two names run the same command. */
  lemma RegistryNames()
    ensures Registry.Keys == CommandNames
    ensures forall a, b | a in Registry && b in Registry && a != b :: Registry[a] != Registry[b]
  {
    assert Registry.Keys == CommandNames by {
      assert "help" in Registry && "listBooks" in Registry && "list" in Registry && "quit" in Registry;
    }
  }

  /** Why `createUser` saved nothing, or that it created the user. */
  datatype CreateOutcome = MissingInfo | WrongArgumentCount | InvalidDate | SaveFailed | Created

  // ---------------------------------------------------------------------
  // listBooks: choosing the limit
  // ---------------------------------------------------------------------

  /** The limit `listBooks(limitStr)` applies; `None` is the unlimited
      listing. A null or blank argument, a trimmed argument that is not a
      32-bit integer, and a number that is not positive all give `None`. */
  function LimitOf(limitStr: Option<string>): (r: Option<Int32>)
    ensures limitStr.None? || Trim(limitStr.value) == [] ==> r.None?
    ensures r.Some? <==> limitStr.Some? && ParseInt(Trim(limitStr.value)).Some? && ParseInt(Trim(limitStr.value)).value > 0
    ensures r.Some? ==> r == ParseInt(Trim(limitStr.value))
  {
    if limitStr.None? || Trim(limitStr.value) == [] then None
    else
      match ParseInt(Trim(limitStr.value))
      case None => None
      case Some(limit) => if limit <= 0 then None else Some(limit)
  }

  /** A positive number written in decimal is taken as the limit. */
  lemma LimitOfWritten(n: Int32)
    requires n > 0
    ensures LimitOf(Some(IntToString(n))) == Some(n)
  {
    var s := IntToString(n);
    IntToStringEnds(n);
    assert IsDigit(s[|s| - 1]);
    TrimUntouched(s);
    ParseIntOfIntToString(n);
  }

  // ---------------------------------------------------------------------
  // createUser: the user built from the arguments
  // ---------------------------------------------------------------------

  /** The user `createUser(userInfo)` hands to `saveUser`, or why it stops
      before: the trimmed arguments are split at runs of white space into
      firstname, lastname, date of birth, email and password; the date must
      be an ISO date; salt and hash are stored as base 64 text. `salt` is
      what `generateSalt` returned and `hashPassword` stands for
      `PasswordHandler.hashPassword`. */
  function PrepareUser(userInfo: Option<string>, salt: seq<Base64.byte>,
                       hashPassword: (string, seq<Base64.byte>) -> seq<Base64.byte>): (r: Result<UserState, CreateOutcome>)
    ensures r.Ok? ==> UserModel.Complete(r.value) && r.value.id.None?
    ensures r.Err? ==> r.error != SaveFailed && r.error != Created
  {
    if userInfo.None? || Trim(userInfo.value) == [] then Err(MissingInfo)
    else
      var parts := SplitWhitespace(Trim(userInfo.value));
      if |parts| != 5 then Err(WrongArgumentCount)
      else
        match IsoDate.Parse(parts[2])
        case None => Err(InvalidDate)
        case Some(dateOfBirth) =>
          Ok(UserState(None, Some(parts[0]), Some(parts[1]), Some(dateOfBirth), Some(parts[3]),
                       Some(Base64.Encode(hashPassword(parts[4], salt))), Some(Base64.Encode(salt))))
  }

  /** Null or blank arguments, and arguments that are not five tokens, are
      refused before anything else is looked at. */
  lemma RefusedArguments(userInfo: Option<string>, salt: seq<Base64.byte>,
                         hashPassword: (string, seq<Base64.byte>) -> seq<Base64.byte>)
    ensures PrepareUser(userInfo, salt, hashPassword) == Err(MissingInfo)
            <==> userInfo.None? || Trim(userInfo.value) == []
    ensures PrepareUser(userInfo, salt, hashPassword) == Err(WrongArgumentCount)
            <==> userInfo.Some? && Trim(userInfo.value) != [] && |SplitWhitespace(Trim(userInfo.value))| != 5
  {
  }

  /** A prepared user holds the five tokens in order: firstname, lastname,
      the date of birth (written back exactly as it was given), email; the
      stored salt decodes to the salt bytes and the stored hash to the
      digest of the password token and that salt. */
  lemma PreparedUserFields(userInfo: Option<string>, salt: seq<Base64.byte>,
                           hashPassword: (string, seq<Base64.byte>) -> seq<Base64.byte>)
    requires PrepareUser(userInfo, salt, hashPassword).Ok?
    ensures var u := PrepareUser(userInfo, salt, hashPassword).value;
      var parts := SplitWhitespace(Trim(userInfo.value));
      |parts| == 5
      && u.firstname == Some(parts[0]) && u.lastname == Some(parts[1])
      && IsoDate.Format(u.dateOfBirth.value) == parts[2]
      && u.email == Some(parts[3])
      && Base64.Decode(u.passwordSalt.value) == Some(salt)
      && Base64.Decode(u.passwordHash.value) == Some(hashPassword(parts[4], salt))
  {
    var parts := SplitWhitespace(Trim(userInfo.value));
    IsoDate.FormatParse(parts[2]);
    Base64.DecodeEncode(salt);
    Base64.DecodeEncode(hashPassword(parts[4], salt));
  }

  /** Five words without white space or control characters, written with a
      blank between neighbours and a valid date third, are taken in order:
      the user gets the first two as names, the date, the fourth as email,
      and the salt and the digest of the fifth as base 64 text. */
  lemma FiveWordsPrepared(words: seq<string>, salt: seq<Base64.byte>,
                          hashPassword: (string, seq<Base64.byte>) -> seq<Base64.byte>)
    requires |words| == 5
    requires forall i | 0 <= i < 5 :: words[i] != [] && forall j | 0 <= j < |words[i]| :: !IsTrimmable(words[i][j])
    requires IsoDate.Parse(words[2]).Some?
    ensures PrepareUser(Some(Join(words, ' ')), salt, hashPassword)
            == Ok(UserState(None, Some(words[0]), Some(words[1]), IsoDate.Parse(words[2]), Some(words[3]),
                            Some(Base64.Encode(hashPassword(words[4], salt))), Some(Base64.Encode(salt))))
  {
    var s := Join(words, ' ');
    JoinFive(words, ' ');
    assert s[0] == words[0][0];
    assert s[|s| - 1] == words[4][|words[4]| - 1];
    TrimUntouched(s);
    forall i | 0 <= i < 5
      ensures NoneIn(words[i], JavaSpaces)
    {
      forall j | 0 <= j < |words[i]|
        ensures words[i][j] !in JavaSpaces
      {
        assert !IsTrimmable(words[i][j]);
      }
    }
    SplitWhitespaceJoin(words);
  }

  /** A date that is not an ISO date stops `createUser` with nothing saved. */
  lemma InvalidDateRefused(userInfo: Option<string>, salt: seq<Base64.byte>,
                           hashPassword: (string, seq<Base64.byte>) -> seq<Base64.byte>)
    requires userInfo.Some? && |SplitWhitespace(Trim(userInfo.value))| == 5
    requires IsoDate.Parse(SplitWhitespace(Trim(userInfo.value))[2]).None?
    ensures PrepareUser(userInfo, salt, hashPassword) == Err(InvalidDate)
  {
  }

  /** A 16-byte salt and a 32-byte SHA-256 digest are stored as 24 and 44
      characters, well within the 500 the columns allow. */
  lemma SecretsFitColumns(userInfo: Option<string>, salt: seq<Base64.byte>,
                          hashPassword: (string, seq<Base64.byte>) -> seq<Base64.byte>)
    requires PrepareUser(userInfo, salt, hashPassword).Ok?
    requires |salt| == 16
    requires |hashPassword(SplitWhitespace(Trim(userInfo.value))[4], salt)| == 32
    ensures var u := PrepareUser(userInfo, salt, hashPassword).value;
      |u.passwordSalt.value| == 24 && |u.passwordHash.value| == 44
      && |u.passwordSalt.value| <= SecretLength && |u.passwordHash.value| <= SecretLength
  {
    var parts := SplitWhitespace(Trim(userInfo.value));
    Base64.EncodedSizes(salt, hashPassword(parts[4], salt));
  }

  // ---------------------------------------------------------------------
  // The handler
  // ---------------------------------------------------------------------

  class CommandHandler {
    const db: Database
    var commands: map<string, Command>

    ghost predicate Valid()
      reads this, db
    {
      db.Valid() && commands == Registry
    }

    /** `new CommandHandler()`: an empty registry, then filled. */
    constructor (db: Database)
      requires db.Valid()
      ensures Valid() && this.db == db
    {
      this.db := db;
      commands := map[];
      new;
      InitializeCommands();
    }

    /** `initializeCommands`: registers the four commands under their names. */
    method InitializeCommands()
      modifies this
      ensures commands == old(commands)["help" := Help]["listBooks" := ListTitles]["list" := ListDetailed]["quit" := Quit]
    {
      commands := commands["help" := Help];
      commands := commands["listBooks" := ListTitles];
      commands := commands["list" := ListDetailed];
      commands := commands["quit" := Quit];
    }

    /** `executeCommand(name)`: whether a command is registered under the
        name, and which one runs. */
    method ExecuteCommand(name: string) returns (found: bool, ran: Option<Command>)
      requires Valid()
      ensures found <==> name in CommandNames
      ensures found <==> ran.Some?
      ensures name == "help" ==> ran == Some(Help)
      ensures name == "listBooks" ==> ran == Some(ListTitles)
      ensures name == "list" ==> ran == Some(ListDetailed)
      ensures name == "quit" ==> ran == Some(Quit)
    {
      RegistryNames();
      if name in commands {
        ran := Some(commands[name]);
        found := true;
      } else {
        ran := None;
        found := false;
      }
    }

    /** `listBooks(limitStr)`: the books whose titles are shown, the first
        `limit` by id when a usable limit is given, otherwise all of them. */
    method ListBooks(limitStr: Option<string>) returns (books: seq<BookState>)
      requires Valid()
      ensures LimitOf(limitStr).None? ==> books == db.GetAllBooks()
      ensures LimitOf(limitStr).Some? ==> books == db.GetAllBooksLimited(LimitOf(limitStr).value)
      ensures books <= db.GetAllBooks()
    {
      if limitStr.Some? && Trim(limitStr.value) != [] {
        var parsed := ParseInt(Trim(limitStr.value));
        if parsed.Some? {
          var limit := parsed.value;
          if limit <= 0 {
            books := db.GetAllBooks();
          } else {
            books := db.GetAllBooksLimited(limit);
          }
        } else {
          books := db.GetAllBooks();
        }
      } else {
        books := db.GetAllBooks();
      }
    }

    /** `importBooks(filePath)`, where `file` is what reading the path
        delivers: an empty path or a file that yields no book leaves the
        store alone; otherwise the books read are passed to `saveBooks`. */
    method ImportBooks(filePath: string, file: TextFile) returns (submitted: bool)
      requires Valid()
      modifies db
      ensures Valid()
      ensures submitted <==> filePath != [] && ParseFile(file) != []
      ensures submitted ==> db.books == Outcome(old(db.books), ParseFile(file))
      ensures !submitted ==> db.books == old(db.books)
      ensures db.users == old(db.users)
    {
      if filePath == [] {
        return false;
      }
      var books := ReadBooksFromTsv(file);
      if books != [] {
        db.SaveBooks(books);
        submitted := true;
      } else {
        submitted := false;
      }
    }

    /** `createUser(userInfo)`: builds the user with setters and saves it.
        Refused arguments leave the store alone; otherwise the outcome is
        whether `saveUser` committed, and the users table is its result. */
    method CreateUser(userInfo: Option<string>, salt: seq<Base64.byte>,
                      hashPassword: (string, seq<Base64.byte>) -> seq<Base64.byte>) returns (outcome: CreateOutcome)
      requires Valid()
      modifies db
      ensures Valid()
      ensures db.books == old(db.books)
      ensures PrepareUser(userInfo, salt, hashPassword).Err? ==>
                outcome == PrepareUser(userInfo, salt, hashPassword).error && db.users == old(db.users)
      ensures PrepareUser(userInfo, salt, hashPassword).Ok? ==>
                var merged := MergeUser(old(db.users), PrepareUser(userInfo, salt, hashPassword).value);
                (outcome == Created <==> merged.Some?)
                && (outcome == Created || outcome == SaveFailed)
                && db.users == (if merged.Some? then merged.value else old(db.users))
    {
      if userInfo.None? || Trim(userInfo.value) == [] {
        return MissingInfo;
      }
      var parts := SplitWhitespace(Trim(userInfo.value));
      if |parts| != 5 {
        return WrongArgumentCount;
      }
      var firstname, lastname, dateOfBirthStr, email, password := parts[0], parts[1], parts[2], parts[3], parts[4];
      var dateOfBirth := IsoDate.Parse(dateOfBirthStr);
      if dateOfBirth.None? {
        return InvalidDate;
      }
      var hash := hashPassword(password, salt);
      var saltBase64 := Base64.Encode(salt);
      var hashBase64 := Base64.Encode(hash);
      var user := new User.Empty();
      user.SetFirstname(Some(firstname));
      user.SetLastname(Some(lastname));
      user.SetDateOfBirth(dateOfBirth);
      user.SetEmail(Some(email));
      user.SetPasswordSalt(Some(saltBase64));
      user.SetPasswordHash(Some(hashBase64));
      var saved := db.SaveUser(user);
      outcome := if saved then Created else SaveFailed;
    }
  }
}
