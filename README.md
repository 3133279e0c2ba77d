# Library app core in Dafny

This project models the core of a small Java library application:

- **Import.** A tab-separated catalogue file is read into books. A header
  line is dropped, and malformed lines are skipped without stopping the
  reading.
- **Storage.** Books and users are stored through JPA `merge` in a database
  whose tables have an identity column, not-null, length and uniqueness
  constraints.
- **Listing.** Books are listed by ascending id, optionally limited.
- **Users.** A user is created from one line of console arguments. The
  password salt and hash are stored as base 64 text.
- **Commands.** A registry maps console command names to commands.

Modules, one per part of the program:

- `Wrappers`: `Option` (Java's nullable references) and `Result`, plus
  `Collect`, a filter-map over sequences with its order lemmas.
- `JavaLang`: the parts of `java.lang` the program relies on, on `seq<char>`:
  - `String.trim`: strips every character up to U+0020.
  - ASCII `toLowerCase` and `contains`.
  - `split("\t")` and `split("\\s+")`, which drop trailing empty strings.
  - `Integer.parseInt` on 32-bit values with an optional sign, and the
    decimal rendering `%d`, which prints `null` for a null `Integer`.
- `IsoDate`: `LocalDate.parse(s, ISO_LOCAL_DATE)` and `LocalDate.toString`.
- `Base64`: the padded encoding of section 4 of RFC 4648, with its decoder.
- `BookModel`, `UserModel`: the entities.
  - Each is a class with nullable fields and setters.
  - `State()` gives a snapshot value (`BookState`, `UserState`).
  - `equals`/`hashCode` go by id only; `toString` is modelled with ASCII
    digits (see "Left out" for locales).
- `FileHandler`: `readBooksFromTSV`.
  - A method with the read loop, proved against the function `ParseFile`.
  - Lemmas about order, skipping, the header and the written-line round trip.
- `Persistence`: the `books` and `users` tables.
  - A `Table` is a map from id to row, the ids in ascending order, and the
    identity column's next value.
  - `merge` is modelled as an upsert followed by a check of the column
    constraints.
  - `saveBooks` is one transaction: it commits the whole batch or rolls back
    to the old table. `saveUser` reports whether it committed.
  - The class `Database` holds both tables.
- `Commands`: the `CommandHandler` class.
  - `listBooks(limitStr)` and `importBooks`.
  - `createUser`, with its argument checks specified by the function
    `PrepareUser`.
  - The command registry and `executeCommand`.

The database is a static class in the program. Here it is one `Database`
object that the command handler holds and that its methods modify.

## Model

| member | source | states |
|---|---|---|
| JavaLang.Trim | src/main/java/ch/bzz/FileHandler.java:49 | the trimmed text is no longer than the input and, unless empty, starts and ends with a character above U+0020 |
| JavaLang.TrimEmpty | src/main/java/ch/bzz/CommandHandler.java:66 | a text trims to nothing exactly when every character is at most U+0020, which is the blank test of `listBooks` and `createUser` |
| JavaLang.TrimIdempotent | src/main/java/ch/bzz/FileHandler.java:55 | trimming twice gives the same as trimming once: `Trim(Trim(s)) == Trim(s)` |
| JavaLang.TrimPadded | src/main/java/ch/bzz/FileHandler.java:55-58 | characters at most U+0020 added before and after a text do not change what `trim` gives |
| JavaLang.TrimUntouched | src/main/java/ch/bzz/FileHandler.java:49 | a text whose ends are above U+0020 is left unchanged by `trim` |
| JavaLang.ToLowerAscii | src/main/java/ch/bzz/FileHandler.java:29 | lowercasing keeps the length and maps each character on its own, upper-case ASCII letters to lower case |
| JavaLang.ContainsAt | src/main/java/ch/bzz/FileHandler.java:29 | an occurrence of the needle at any position makes `contains` true |
| JavaLang.ContainsFound | src/main/java/ch/bzz/FileHandler.java:29 | when `contains` is true, the needle occurs at some position, which is returned |
| JavaLang.ContainsIff | src/main/java/ch/bzz/FileHandler.java:29 | `contains` is true exactly when the needle occurs at some position |
| JavaLang.Pieces | src/main/java/ch/bzz/FileHandler.java:52 | cutting at separators gives at least one piece and no piece holds a separator |
| JavaLang.JoinPieces | src/main/java/ch/bzz/FileHandler.java:52 | gluing the pieces back with the separator gives the original text |
| JavaLang.PiecesJoin | src/main/java/ch/bzz/FileHandler.java:52 | fields free of every separator in a set, glued with one of those separators, cut back into exactly those fields |
| JavaLang.PiecesOfPlain | src/main/java/ch/bzz/FileHandler.java:52 | a separator-free prefix extends the first piece of what follows |
| JavaLang.PiecesAfterSeparator | src/main/java/ch/bzz/FileHandler.java:52 | a separator-free field followed by a separator is the first piece, and the rest splits on its own |
| JavaLang.DropTrailingEmpty | src/main/java/ch/bzz/FileHandler.java:52 | the result is a prefix of the pieces that does not end in an empty piece, and everything dropped was empty |
| JavaLang.SplitTab | src/main/java/ch/bzz/FileHandler.java:52 | `split("\t")`: no field holds a tab; a line without a tab is its only field; otherwise the pieces without trailing empty ones |
| JavaLang.NonEmpty | src/main/java/ch/bzz/CommandHandler.java:136 | every kept piece is a non-empty piece of the input, every non-empty piece is kept, and no more pieces come out than went in |
| JavaLang.NonEmptyConcat | src/main/java/ch/bzz/CommandHandler.java:136 | the kept pieces of two runs are those of the first followed by those of the second |
| JavaLang.NonEmptyAppend | src/main/java/ch/bzz/CommandHandler.java:136 | a single piece is kept exactly when it is non-empty, and the kept pieces of two runs are those of the first followed by those of the second, which fixes order and multiplicity |
| JavaLang.NonEmptyKeepsAll | src/main/java/ch/bzz/CommandHandler.java:136 | pieces that are all non-empty are kept unchanged |
| JavaLang.SplitWhitespace | src/main/java/ch/bzz/CommandHandler.java:136 | `split("\\s+")`: no token holds white space and only the first token can be empty |
| JavaLang.SplitWhitespaceJoin | src/main/java/ch/bzz/CommandHandler.java:136 | words without white space written with one blank between them split back into exactly those words, in order |
| JavaLang.DigitChar | src/main/java/ch/bzz/FileHandler.java:34 | the digit character of a value below ten is a digit with that value |
| JavaLang.ParseInt | src/main/java/ch/bzz/FileHandler.java:34 | `Integer.parseInt` accepts a text exactly when it is an optional `+` or `-` followed by one or more ASCII digits whose signed value fits in 32 bits, and then returns that value |
| JavaLang.ParseIntPlus | src/main/java/ch/bzz/FileHandler.java:34 | a leading `+` before digits does not change the parsed result |
| JavaLang.ParseIntLeadingZero | src/main/java/ch/bzz/FileHandler.java:34 | a leading zero does not change the parsed result, so `007` reads as 7 |
| JavaLang.IntToString | src/main/java/ch/bzz/model/Book.java:94 | `%d` writes a non-empty text that starts with a minus sign exactly for a negative value |
| JavaLang.IntToStringNumeral | src/main/java/ch/bzz/model/Book.java:94 | a rendered integer is a numeral without leading zeros whose digits are the rendering of its absolute value |
| JavaLang.NatToString | src/main/java/ch/bzz/model/Book.java:94 | the decimal rendering of a natural number is a non-empty run of digits |
| JavaLang.NatToStringValue | src/main/java/ch/bzz/model/Book.java:94 | the digits of the rendering have the rendered value |
| JavaLang.ParseIntOfIntToString | src/main/java/ch/bzz/FileHandler.java:34 | parsing the decimal rendering of any 32-bit value gives that value back |
| JavaLang.ParseIntOfTrimmedIntToString | src/main/java/ch/bzz/FileHandler.java:55 | `parseInt(values[0].trim())` reads back the rendering of any 32-bit value |
| JavaLang.IntToStringChars | src/main/java/ch/bzz/model/Book.java:94 | a rendered integer holds only digits and a minus sign |
| JavaLang.IntToStringEnds | src/main/java/ch/bzz/FileHandler.java:49 | a rendered integer starts with a character `trim` keeps, ends with a digit and holds no tab |
| JavaLang.ShowInt | src/main/java/ch/bzz/model/Book.java:94 | `%d` writes no bar, and a present value is written so that it parses back to itself |
| JavaLang.ShowStr | src/main/java/ch/bzz/model/Book.java:94 | `%s` writes `null` exactly for a null string or the text `null` itself |
| JavaLang.ShowStrDistinguishes | src/main/java/ch/bzz/model/User.java:122-123 | two nullable strings written alike by `%s` are equal, except a null string and the text `null` |
| IsoDate.DaysInMonth | src/main/java/ch/bzz/CommandHandler.java:151 | every month has 28 to 31 days |
| IsoDate.Parse | src/main/java/ch/bzz/CommandHandler.java:151 | an accepted ISO date has a year from 0 to 9999 |
| IsoDate.ParseFormat | src/main/java/ch/bzz/CommandHandler.java:151 | every date with a four-digit year is parsed back from its own `toString` |
| IsoDate.FormatParse | src/main/java/ch/bzz/CommandHandler.java:151 | an accepted date text is exactly the `toString` of the date it denotes |
| IsoDate.Format | src/main/java/ch/bzz/model/User.java:122 | `LocalDate.toString` ends in `-MM-DD` with two-digit month and day, and a year from 0 to 9999 gives exactly ten characters with a four-digit year |
| IsoDate.FormatChars | src/main/java/ch/bzz/model/User.java:122 | a formatted date holds no character other than digits, `-` and `+`, so it holds no bar |
| IsoDate.Pad4OfValue | src/main/java/ch/bzz/CommandHandler.java:151 | four digits are the zero-padded rendering of their own value |
| IsoDate.Pad2OfValue | src/main/java/ch/bzz/CommandHandler.java:151 | two digits are the zero-padded rendering of their own value |
| Base64.Char | src/main/java/ch/bzz/CommandHandler.java:158 | no alphabet character is the padding character |
| Base64.Index | src/main/java/ch/bzz/CommandHandler.java:158 | a decoded character stands for a six-bit value whose alphabet character it is |
| Base64.IndexOfChar | src/main/java/ch/bzz/CommandHandler.java:158 | the alphabet and its inverse agree on all 64 values |
| Base64.Encode | src/main/java/ch/bzz/CommandHandler.java:158-159 | the encoding is empty exactly for no bytes, and `=` padding appears only in the last two characters |
| Base64.DecodeEncode | src/main/java/ch/bzz/CommandHandler.java:158-159 | decoding the encoding of any byte sequence gives the bytes back |
| Base64.EncodedLength | src/main/java/ch/bzz/CommandHandler.java:158-159 | the padded encoding has four characters per started group of three bytes |
| Base64.EncodedSizes | src/main/java/ch/bzz/util/PasswordHandler.java:17-34 | a 16-byte salt encodes to 24 characters and a 32-byte digest to 44 |
| BookModel.RenderIsJoin | src/main/java/ch/bzz/model/Book.java:93-95 | `toString` is the five columns id, isbn, title, author, year glued with bars |
| BookModel.RenderColumns | src/main/java/ch/bzz/model/Book.java:93-95 | when the texts hold no bar, cutting the rendering at bars gives back the five columns in field order |
| BookModel.Book.Empty | src/main/java/ch/bzz/model/Book.java:32 | the default constructor leaves every field null |
| BookModel.Book.constructor | src/main/java/ch/bzz/model/Book.java:42-48 | the constructor stores exactly the five given values |
| BookModel.Book.SetId | src/main/java/ch/bzz/model/Book.java:72-74 | sets the id and leaves the other fields as they were |
| BookModel.Book.SetIsbn | src/main/java/ch/bzz/model/Book.java:76-78 | sets the isbn and leaves the other fields as they were |
| BookModel.Book.SetTitle | src/main/java/ch/bzz/model/Book.java:80-82 | sets the title and leaves the other fields as they were |
| BookModel.Book.SetAuthor | src/main/java/ch/bzz/model/Book.java:84-86 | sets the author and leaves the other fields as they were |
| BookModel.Book.SetPublicationYear | src/main/java/ch/bzz/model/Book.java:88-90 | sets the year and leaves the other fields as they were |
| BookModel.Book.HashCode | src/main/java/ch/bzz/model/Book.java:105-108 | the hash is the id, or 0 for a null id |
| BookModel.Book.ToString | src/main/java/ch/bzz/model/Book.java:92-95 | the rendering cuts at bars into the five columns of the book's fields |
| BookModel.Book.Equals | src/main/java/ch/bzz/model/Book.java:97-108 | a book equals only a non-null book, and then both have the same hash code |
| BookModel.EqualsIsEquivalence | src/main/java/ch/bzz/model/Book.java:97-103 | `equals` is reflexive, symmetric and transitive |
| BookModel.NullIdEqualsOnlyItself | src/main/java/ch/bzz/model/Book.java:99-102 | a book with a null id equals exactly itself |
| BookModel.DistinctBooksEqualById | src/main/java/ch/bzz/model/Book.java:98-103 | two distinct books are equal exactly when both ids are present and equal |
| BookModel.EqualsAgreesWithHashCode | src/main/java/ch/bzz/model/Book.java:97-108 | equal books have equal hash codes |
| UserModel.ShowDate | src/main/java/ch/bzz/model/User.java:122-123 | `%s` of a date writes no bar |
| UserModel.RenderIsJoin | src/main/java/ch/bzz/model/User.java:120-124 | `toString` is the columns id, firstname, lastname, date of birth, email glued with bars |
| UserModel.RenderColumns | src/main/java/ch/bzz/model/User.java:120-124 | when the names and email hold no bar, cutting the rendering at bars gives back the five columns in order |
| UserModel.RenderHidesPassword | src/main/java/ch/bzz/model/User.java:121-124 | the rendering does not depend on the password hash or salt |
| UserModel.User.Empty | src/main/java/ch/bzz/model/User.java:39 | the default constructor leaves every field null |
| UserModel.User.constructor | src/main/java/ch/bzz/model/User.java:51-60 | the constructor stores exactly the seven given values |
| UserModel.User.SetId | src/main/java/ch/bzz/model/User.java:92-94 | sets the id and leaves the other fields as they were |
| UserModel.User.SetFirstname | src/main/java/ch/bzz/model/User.java:96-98 | sets the firstname and leaves the other fields as they were |
| UserModel.User.SetLastname | src/main/java/ch/bzz/model/User.java:100-102 | sets the lastname and leaves the other fields as they were |
| UserModel.User.SetDateOfBirth | src/main/java/ch/bzz/model/User.java:104-106 | sets the date of birth and leaves the other fields as they were |
| UserModel.User.SetEmail | src/main/java/ch/bzz/model/User.java:108-110 | sets the email and leaves the other fields as they were |
| UserModel.User.SetPasswordHash | src/main/java/ch/bzz/model/User.java:112-114 | sets the hash and leaves the other fields as they were |
| UserModel.User.SetPasswordSalt | src/main/java/ch/bzz/model/User.java:116-118 | sets the salt and leaves the other fields as they were |
| UserModel.User.HashCode | src/main/java/ch/bzz/model/User.java:134-137 | the hash is the id, or 0 for a null id |
| UserModel.User.ToString | src/main/java/ch/bzz/model/User.java:120-124 | the rendering is that of the user without hash and salt, and cuts at bars into its five columns |
| UserModel.User.Equals | src/main/java/ch/bzz/model/User.java:126-137 | a user equals only a non-null user, and then both have the same hash code |
| UserModel.EqualsIsEquivalence | src/main/java/ch/bzz/model/User.java:126-132 | `equals` is reflexive, symmetric and transitive |
| UserModel.NullIdEqualsOnlyItself | src/main/java/ch/bzz/model/User.java:128-131 | a user with a null id equals exactly itself |
| UserModel.DistinctUsersEqualById | src/main/java/ch/bzz/model/User.java:127-132 | two distinct users are equal exactly when both ids are present and equal |
| UserModel.EqualsAgreesWithHashCode | src/main/java/ch/bzz/model/User.java:126-137 | equal users have equal hash codes |
| FileHandler.IsHeader | src/main/java/ch/bzz/FileHandler.java:29 | a line is a header exactly when its lowercased text has an occurrence of `id` and one of `isbn` |
| FileHandler.ParseFields | src/main/java/ch/bzz/FileHandler.java:53-60 | a split line gives a book exactly when it has at least five fields and the trimmed first and fifth parse as 32-bit integers; the book is complete, its id and year are those two integers, and its isbn, title and author neither start nor end with a character at most U+0020 |
| FileHandler.FieldsPadded | src/main/java/ch/bzz/FileHandler.java:55-59 | characters at most U+0020 around any field do not change the book a split line gives, since every field is trimmed before use |
| FileHandler.ExtraFieldsIgnored | src/main/java/ch/bzz/FileHandler.java:53-60 | fields after the fifth do not change the book |
| FileHandler.FirstLineBook | src/main/java/ch/bzz/FileHandler.java:26-44 | the first line is skipped exactly when it is a header, splits into fewer than five tab fields, or its trimmed first or fifth field is no 32-bit integer; otherwise its book is complete, with those two integers as id and year |
| FileHandler.LaterLineBook | src/main/java/ch/bzz/FileHandler.java:49-66 | a later line is skipped exactly when it trims to nothing, splits after trimming into fewer than five tab fields, or its trimmed first or fifth field is no 32-bit integer; otherwise its book is complete, with those two integers as id and year |
| FileHandler.LaterBooks | src/main/java/ch/bzz/FileHandler.java:48-67 | the later lines never give more books than there are lines |
| FileHandler.ParseFile | src/main/java/ch/bzz/FileHandler.java:21-74 | an unopenable file gives no books, and a file never gives more books than lines |
| FileHandler.ReadBooksFromTsv | src/main/java/ch/bzz/FileHandler.java:21-75 | the method returns exactly `ParseFile` of the file |
| FileHandler.ReadRemainingLines | src/main/java/ch/bzz/FileHandler.java:48-67 | the loop over the later lines returns exactly their books, in line order |
| FileHandler.LaterBooksAppend | src/main/java/ch/bzz/FileHandler.java:48-67 | the books of two runs of lines are those of the first run followed by those of the second |
| FileHandler.ParseFileAppend | src/main/java/ch/bzz/FileHandler.java:48-67 | more lines at the end of a file only add books after the ones already read |
| FileHandler.SkippedLineIgnored | src/main/java/ch/bzz/FileHandler.java:50-66 | a rejected line (blank, too few fields, bad number) adds nothing and the lines after it are still read |
| FileHandler.HeaderDropped | src/main/java/ch/bzz/FileHandler.java:26-29 | a file starting with a header reads as its later lines alone |
| FileHandler.AcceptedLineKept | src/main/java/ch/bzz/FileHandler.java:53-60 | an accepted line adds its book between the books of the lines before and after it |
| FileHandler.LineBooks | src/main/java/ch/bzz/FileHandler.java:26-67 | each line has exactly one possible book |
| FileHandler.BooksFollowLineOrder | src/main/java/ch/bzz/FileHandler.java:22-74 | every returned book is the book of its own line, and the lines of successive books strictly increase |
| FileHandler.ReadWrittenLine | src/main/java/ch/bzz/FileHandler.java:49-60 | a writable book written as a tab-separated line is read back as the same book, as a later line and as a first line that is not a header |
| FileHandler.WrittenLineFields | src/main/java/ch/bzz/FileHandler.java:49-52 | a writable book written as a tab-separated line is untouched by `trim` and splits back into its five written fields |
| FileHandler.WrittenFieldsParse | src/main/java/ch/bzz/FileHandler.java:53-60 | the five written fields of a writable book parse back to that book |
| FileHandler.FieldsParse | src/main/java/ch/bzz/FileHandler.java:53-60 | five fields whose trimmed numbers parse to the book's id and year, and whose text fields are the book's already trimmed texts, give that book |
| FileHandler.SplitTabJoin | src/main/java/ch/bzz/FileHandler.java:52 | tab-free fields, the last non-empty, glued with tabs split back into exactly those fields |
| FileHandler.FourFieldsSkipped | src/main/java/ch/bzz/FileHandler.java:53 | the line `7\t978-0-1\tFoo\tBar`, with only four fields, gives no book |
| Persistence.Listing | src/main/java/ch/bzz/Database.java:83-84 | the listing has one row per listed id |
| Persistence.Place | src/main/java/ch/bzz/Database.java:117 | `merge` writes either the stored row of the entity's id or a new row under the identity column's next value |
| Persistence.StoreKeeps | src/main/java/ch/bzz/Database.java:117 | a write keeps the table well formed and every stored id; an update changes only its row; an insert appends the new id and advances the identity column |
| Persistence.MergeBook | src/main/java/ch/bzz/Database.java:117 | a merge that succeeds leaves every column constraint of `books` satisfied |
| Persistence.MergeBookKeeps | src/main/java/ch/bzz/Database.java:117 | a merge keeps the books table valid, keeps every stored id and row order, overwrites the row of a stored id, and leaves every other row unchanged |
| Persistence.Outcome | src/main/java/ch/bzz/Database.java:116-125 | the transaction's result, committed or rolled back, keeps every column constraint the table satisfied |
| Persistence.ApplyBooksAppend | src/main/java/ch/bzz/Database.java:116-125 | a batch split in two runs as the first part followed by the second from where the first left the table, failing as soon as either part fails |
| Persistence.CommittedAt | src/main/java/ch/bzz/Database.java:117-120 | a committed batch passes through the table its prefix commits, the merge of the book at each position, and the rest of the batch from there |
| Persistence.NewBookInserted | src/main/java/ch/bzz/Database.java:116-120 | in a committed mixed batch, a book new to the table reached before it is stored under that table's identity value, an id fresh to the starting table, and keeps that row unless a later book names the id |
| Persistence.UntouchedRow | src/main/java/ch/bzz/Database.java:116-120 | a committed batch that never names a stored id leaves its row unchanged |
| Persistence.ApplyFailureStays | src/main/java/ch/bzz/Database.java:116-125 | once a merge in the batch fails, the transaction fails whatever follows |
| Persistence.ApplyKeepsTable | src/main/java/ch/bzz/Database.java:113-120 | a committed batch keeps the table valid, and keeps the stored ids and their order |
| Persistence.LastWriteWins | src/main/java/ch/bzz/Database.java:116-120 | after a committed batch, a stored row holds the last batch book with its id, or is unchanged when no batch book has that id |
| Persistence.UpdatesOnly | src/main/java/ch/bzz/Database.java:116-120 | a committed batch of stored ids inserts nothing: same ids, order and identity counter |
| Persistence.SaveTwiceIsSaveOnce | src/main/java/ch/bzz/Database.java:117-118 | saving the same batch of stored ids twice leaves the table of saving it once |
| Persistence.DuplicateIsbnRejected | src/main/java/ch/bzz/model/Book.java:17 | a batch book repeating the isbn of a stored row that no batch book rewrites makes the whole transaction fail |
| Persistence.IsbnClashFails | src/main/java/ch/bzz/model/Book.java:17 | merging a book with the isbn of a stored row it does not write fails |
| Persistence.FailedMergeRollsBack | src/main/java/ch/bzz/Database.java:116-125 | a merge that fails after a committed prefix makes the whole batch fail |
| Persistence.NoWriteTo | src/main/java/ch/bzz/Database.java:116-118 | a batch with no book under an id writes nothing there |
| Persistence.RowsFromSnoc | src/main/java/ch/bzz/Database.java:116-118 | one more inserted row extends the run of appended rows |
| Persistence.NewBooksAppended | src/main/java/ch/bzz/Database.java:116-120 | a committed batch whose every book has no id, or an id neither stored nor taken by an earlier book of the batch, appends the books to the listing in batch order under consecutive fresh ids, and leaves the old rows in place |
| Persistence.NumberedImportListed | src/main/java/ch/bzz/Database.java:113-120 | a catalogue numbered 1, 2, 3, ... saved into an empty books table is listed exactly as read, each book under its own id |
| Persistence.CollidingIdOverwrites | src/main/java/ch/bzz/Database.java:117 | a batch book carrying the id an earlier new book of the batch was inserted under overwrites that book: the row holds the later book and no row is added |
| Persistence.AppendedKey | src/main/java/ch/bzz/Database.java:116-118 | the j-th book of an appended run is stored under the j-th id from the identity column's old value |
| Persistence.NewBookStep | src/main/java/ch/bzz/Database.java:117 | one more new book extends the appended run by that book |
| Persistence.InsertAppends | src/main/java/ch/bzz/Database.java:117 | merging a new book appends it to the listing under the identity column's next value |
| Persistence.NewKeysAboveNext | src/main/java/ch/bzz/Database.java:116-120 | every id a batch adds is at least the identity column's value before the batch |
| Persistence.NewRowsAbove | src/main/java/ch/bzz/Database.java:116-120 | every id appended to the order by a batch is at least the identity column's value before the batch |
| Persistence.MergeUser | src/main/java/ch/bzz/Database.java:156 | a merge that succeeds leaves every column constraint of `users` satisfied |
| Persistence.MergeUserKeeps | src/main/java/ch/bzz/Database.java:156 | a committed user merge keeps the users table valid and leaves every other user unchanged |
| Persistence.SavedUserListed | src/test/java/ch/bzz/UserTest.java:115-134 | a saved user is afterwards listed with all its fields, under a fresh id when it had none |
| Persistence.DuplicateEmailRejected | src/main/java/ch/bzz/model/User.java:27 | a user with the email of another stored user cannot be saved |
| Persistence.ListingAscending | src/main/java/ch/bzz/Database.java:83 | the listing holds every stored book once, each under its id, by ascending id |
| Persistence.UserListingAscending | src/main/java/ch/bzz/Database.java:139 | the listing holds every stored user once, each under its id, by ascending id |
| Persistence.Database.constructor | src/main/java/ch/bzz/Database.java:27-67 | the store starts from the given valid tables |
| Persistence.Database.GetAllBooks | src/main/java/ch/bzz/Database.java:81-89 | every listed book is the stored row of its id, ids ascend, and every stored book is listed |
| Persistence.Database.GetAllBooksLimited | src/main/java/ch/bzz/Database.java:96-107 | a prefix of `getAllBooks()`: of length min(limit, count) for a positive limit, all of it otherwise |
| Persistence.Database.GetAllUsers | src/main/java/ch/bzz/Database.java:137-145 | every listed user is the stored row of its id, ids ascend, and every stored user is listed |
| Persistence.Database.SaveBooks | src/main/java/ch/bzz/Database.java:113-131 | the books table becomes the committed batch result, or stays as it was when a merge fails; users are untouched |
| Persistence.Database.SaveUser | src/main/java/ch/bzz/Database.java:151-169 | reports success exactly when the merge commits; the users table becomes the merge result or stays as it was; books are untouched |
| Commands.RegistryNames | src/main/java/ch/bzz/CommandHandler.java:33-38 | the registry knows exactly the names help, listBooks, list and quit, each under its own command |
| Commands.LimitOf | src/main/java/ch/bzz/CommandHandler.java:66-81 | a null or blank argument gives no limit; a limit is chosen exactly when the trimmed argument parses to a positive integer, and it is that integer |
| Commands.LimitOfWritten | src/main/java/ch/bzz/CommandHandler.java:68-73 | the decimal text of a positive number selects that number as limit |
| Commands.PrepareUser | src/main/java/ch/bzz/CommandHandler.java:130-168 | a prepared user is complete and has no id; refusals are the missing-info, argument-count and date cases |
| Commands.RefusedArguments | src/main/java/ch/bzz/CommandHandler.java:131-141 | missing info exactly for null or blank input; wrong count exactly for other input that does not split into five tokens |
| Commands.PreparedUserFields | src/main/java/ch/bzz/CommandHandler.java:143-168 | the five tokens become firstname, lastname, date (written back as given), email and password, and the stored salt and hash decode to the salt and to the digest of that password |
| Commands.FiveWordsPrepared | src/main/java/ch/bzz/CommandHandler.java:136-168 | five words free of blanks and control characters, written with one blank between them and a valid date third, give the user with those names, that date and email, and the salt and the digest of the fifth word |
| Commands.InvalidDateRefused | src/main/java/ch/bzz/CommandHandler.java:151 | five tokens whose third is no ISO date are refused as an invalid date |
| Commands.SecretsFitColumns | src/main/java/ch/bzz/CommandHandler.java:154-159 | a 16-byte salt and 32-byte digest are stored in 24 and 44 characters, within the 500 the columns allow |
| Commands.CommandHandler.constructor | src/main/java/ch/bzz/CommandHandler.java:25-28 | a new handler holds the full registry |
| Commands.CommandHandler.InitializeCommands | src/main/java/ch/bzz/CommandHandler.java:33-38 | registers the four commands under their names over the previous map |
| Commands.CommandHandler.ExecuteCommand | src/main/java/ch/bzz/CommandHandler.java:196-203 | reports a command exactly for the four registered names, and names the command registered under that name; running it is left out |
| Commands.CommandHandler.ListBooks | src/main/java/ch/bzz/CommandHandler.java:64-81 | the listing is the limited one exactly when `LimitOf` gives a limit, otherwise the full one; always a prefix of the full listing |
| Commands.CommandHandler.ImportBooks | src/main/java/ch/bzz/CommandHandler.java:113-124 | the books are submitted exactly when the path is non-empty and the file yields books; the books table is then the `saveBooks` outcome, otherwise unchanged |
| Commands.CommandHandler.CreateUser | src/main/java/ch/bzz/CommandHandler.java:130-181 | refused arguments save nothing; otherwise the user is created exactly when the merge commits, and the users table is its result |

## Left out

- Getters of `Book` and `User`: Dafny reads the fields directly, and
  `State()` is the snapshot the contracts speak about.
- `PasswordHandler`: `SecureRandom` and SHA-256 are foreign calls. The salt
  and the hash function are parameters of `PrepareUser` and `CreateUser`.
  The SHA-256 digest is not computed, and `NoSuchAlgorithmException` is not
  modelled.
- Logging, `showHelp`, `quit`, the text `listBooksDetailed` prints, and the
  titles `listBooks` prints. `ListBooks` returns the books whose titles are
  printed.
- ExecuteCommand: reports which command it would run, not that command's
  effects.
- Database bootstrap and `close` (configuration files, the
  `EntityManagerFactory`, `System.exit`). The store is given to the
  `Database` constructor.
- Infrastructure failures: the queries returning an empty list after an
  exception, and a failing commit. Only merges that break a constraint fail.
- Persistence.Place: a new row takes the identity counter's next value.
  Because a rolled-back `saveBooks` restores the counter together with the
  rows, the model hands out again the ids a failed batch took; a database
  identity column never reuses them, so ids after a rollback can differ
  from the database's (they stay fresh and ascending).
- Persistence.MergeBook: constraints are checked on the whole table right
  after each merge. Hibernate with identity ids inserts a new row at
  `merge` but defers updates of stored rows to the flush, and the failing
  batches differ in both directions. A batch that gives a stored row a
  new isbn and then inserts a book with the row's old isbn commits in the
  model but is rejected by the database. A batch that passes a stored row
  through another row's isbn and then a fresh one fails in the model but
  commits when the check happens at the flush. This ordering of inserts
  and updates is not modelled.
- Length constraints are treated as database errors, as a strict SQL mode
  reports them. A database that silently truncates is not modelled.
- `merge` writing the assigned id back to the entity: the Java code saves a
  copy and never reads it back, so the model leaves the passed `User`
  untouched and `saveBooks` takes book values.
- FileHandler.ReadBooksFromTsv: returns `BookState` values instead of fresh
  `Book` objects; the objects are only read afterwards.
- A read error in the middle of a file is modelled as a shorter file, which
  is what `hasNextLine` turns it into.
- A null `filePath` in `importBooks`, which throws a
  `NullPointerException`, is not modelled; the path is a non-null string.
- FileHandler.ReadWrittenLine: the concrete line
  `7\t978-0-1\tFoo\tBar\t1999` is not stated as a literal lemma. The round
  trip for every writable book covers it.
- JavaLang.ParseInt: Unicode digits outside ASCII, which `Integer.parseInt`
  also accepts, are not modelled.
- JavaLang.ShowInt: `String.format` uses the default locale, which can
  write non-ASCII digits (Arabic-Indic digits, say); the model always
  writes ASCII digits, as under an English locale.
- JavaLang.ToLowerAscii: the model lowercases the ASCII letters and leaves
  every other character alone. `toLowerCase()` also lowercases non-ASCII
  letters (`Ä` becomes `ä`) and depends on the default locale. Outside a
  Turkish locale no non-ASCII character lowercases to `d`, `s`, `b` or `n`,
  and `İ` becomes `i` followed by a combining dot, so Java's lowercasing
  creates no occurrence of `id` or `isbn` that the model misses, and the
  header test gives the same answer. Under a Turkish locale `I` becomes a
  dotless `ı`, so Java keeps a first line whose only `id`/`isbn` are upper
  case as data, while the model drops it as a header. Locale-dependent
  lowercasing is not modelled.
- IsoDate.Parse: signed and five-digit years, which `ISO_LOCAL_DATE` accepts
  with a sign, are refused by the model.
- Base64.Decode: it accepts only the padded form the encoder writes, not the
  Java decoder's other inputs.
- `JavalinMain` (the HTTP server) and `LibraryAppMain` (the console loop)
  are not part of this model.
