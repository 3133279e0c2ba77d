/**
 * `FileHandler.readBooksFromTSV`: a tolerant reader of tab-separated book
 * catalogues. Each line holds id, isbn, title, author and publication year;
 * a first line that looks like a header is dropped, blank and malformed
 * lines are skipped, and reading goes on after every rejected line.
 */
module FileHandler {
  import opened Wrappers
  import opened JavaLang
  import opened BookModel

  /** What a `Scanner` over the file at the given path delivers: nothing
      when the file cannot be opened, otherwise its lines in order. A read
      error ends `hasNextLine`, so a file that fails mid-way reads as the
      lines before the failure. */
  datatype TextFile = Unopenable | Opened(lines: seq<string>)

  /** The header heuristic: the lowercased line contains both `id` and `isbn`. */
  predicate IsHeader(line: string)
    ensures IsHeader(line) <==> ((exists i: nat :: OccursAt(ToLowerAscii(line), "id", i))
                                 && (exists j: nat :: OccursAt(ToLowerAscii(line), "isbn", j)))
  {
    ContainsIff(ToLowerAscii(line), "id");
    ContainsIff(ToLowerAscii(line), "isbn");
    Contains(ToLowerAscii(line), "id") && Contains(ToLowerAscii(line), "isbn")
  }

  /** The book a split line describes: at least five fields, the first and
      the fifth trimmed to 32-bit integers; the other fields are trimmed and
      any field after the fifth is ignored. `None` is a skipped line. */
  function ParseFields(values: seq<string>): (r: Option<BookState>)
    ensures r.Some? <==> |values| >= 5 && ParseInt(Trim(values[0])).Some? && ParseInt(Trim(values[4])).Some?
    ensures r.Some? ==> (Complete(r.value) && r.value.id == ParseInt(Trim(values[0]))
      && r.value.publicationYear == ParseInt(Trim(values[4])))
    ensures r.Some? ==> (TrimmedEnds(r.value.isbn.value) && TrimmedEnds(r.value.title.value)
      && TrimmedEnds(r.value.author.value))
  {
    if |values| < 5 then None
    else
      var id, year := ParseInt(Trim(values[0])), ParseInt(Trim(values[4]));
      if id.None? || year.None? then None
      else Some(BookState(id, Some(Trim(values[1])), Some(Trim(values[2])), Some(Trim(values[3])), year))
  }

  /** Characters at most U+0020 around any field do not change the book a
      split line gives: every field is trimmed before it is used. */
  lemma FieldsPadded(values: seq<string>, pre: seq<string>, post: seq<string>, padded: seq<string>)
    requires |pre| == |post| == |padded| == |values|
    requires forall i | 0 <= i < |values| :: Blank(pre[i]) && Blank(post[i]) && padded[i] == pre[i] + values[i] + post[i]
    ensures ParseFields(padded) == ParseFields(values)
  {
    if |values| >= 5 {
      forall i | 0 <= i < 5
        ensures Trim(padded[i]) == Trim(values[i])
      {
        TrimPadded(pre[i], values[i], post[i]);
      }
    }
  }

  /** Fields after the fifth do not matter. */
  lemma ExtraFieldsIgnored(values: seq<string>)
    requires |values| > 5
    ensures ParseFields(values) == ParseFields(values[..5])
  {
  }

  /** The book of the first line: none when it is a header, otherwise the
      book of its fields, split without trimming the line first. A first
      line is skipped exactly when it is a header, has fewer than five
      fields, or its first or fifth field is not a 32-bit integer. */
  function FirstLineBook(line: string): (r: Option<BookState>)
    ensures r.None? <==> (IsHeader(line) || |SplitTab(line)| < 5
      || ParseInt(Trim(SplitTab(line)[0])).None? || ParseInt(Trim(SplitTab(line)[4])).None?)
    ensures r.Some? ==> (Complete(r.value)
      && r.value.id == ParseInt(Trim(SplitTab(line)[0]))
      && r.value.publicationYear == ParseInt(Trim(SplitTab(line)[4])))
  {
    if IsHeader(line) then None else ParseFields(SplitTab(line))
  }

  /** The book of a line after the first: the line is trimmed before it is
      split. A later line is skipped exactly when it trims to nothing, has
      fewer than five fields, or its first or fifth field is not a 32-bit
      integer. */
  function LaterLineBook(line: string): (r: Option<BookState>)
    ensures r.None? <==> (Trim(line) == [] || |SplitTab(Trim(line))| < 5
      || ParseInt(Trim(SplitTab(Trim(line))[0])).None? || ParseInt(Trim(SplitTab(Trim(line))[4])).None?)
    ensures r.Some? ==> (Complete(r.value)
      && r.value.id == ParseInt(Trim(SplitTab(Trim(line))[0]))
      && r.value.publicationYear == ParseInt(Trim(SplitTab(Trim(line))[4])))
  {
    var trimmed := Trim(line);
    if trimmed == [] then None else ParseFields(SplitTab(trimmed))
  }

  /** The books of the lines after the first, in line order. */
  function LaterBooks(lines: seq<string>): (r: seq<BookState>)
    ensures |r| <= |lines|
  {
    Collect(LaterLineBook, lines)
  }

  /** What `readBooksFromTSV` returns: nothing for a file that cannot be
      opened, never more books than lines otherwise. */
  function ParseFile(file: TextFile): (r: seq<BookState>)
    ensures file.Unopenable? ==> r == []
    ensures file.Opened? ==> |r| <= |file.lines|
  {
    match file
    case Unopenable => []
    case Opened(lines) =>
      if lines == [] then [] else AsSeq(FirstLineBook(lines[0])) + LaterBooks(lines[1..])
  }

  /** `readBooksFromTSV`: the first line, then the loop over the others,
      appending to one list of books. */
  method ReadBooksFromTsv(file: TextFile) returns (books: seq<BookState>)
    ensures books == ParseFile(file)
  {
    books := [];
    if file.Unopenable? {
      return;
    }
    var lines := file.lines;
    if |lines| == 0 {
      return;
    }
    var first := FirstLineBook(lines[0]);
    books := AsSeq(first);
    var later := ReadRemainingLines(lines);
    books := books + later;
  }

  /** The `while (hasNextLine())` loop: every line after the first adds
      the book it stands for, if any, after the books read so far. */
  method ReadRemainingLines(lines: seq<string>) returns (books: seq<BookState>)
    requires |lines| >= 1
    ensures books == LaterBooks(lines[1..])
  {
    books := [];
    var next := 1;
    while next < |lines|
      invariant 1 <= next <= |lines|
      invariant books == LaterBooks(lines[1..next])
    {
      var book := LaterLineBook(lines[next]);
      LaterBooksStep(lines, next);
      next := next + 1;
      if book.Some? {
        books := books + [book.value];
      }
    }
    assert lines[1..next] == lines[1..];
  }

  /** One more line read: its book, if any, goes after the earlier ones. */
  lemma LaterBooksStep(lines: seq<string>, next: nat)
    requires 1 <= next < |lines|
    ensures LaterBooks(lines[1..next + 1]) == LaterBooks(lines[1..next]) + AsSeq(LaterLineBook(lines[next]))
  {
    assert lines[1..next + 1] == lines[1..next] + [lines[next]];
    CollectSnoc(LaterLineBook, lines[1..next], lines[next]);
  }

  // ---------------------------------------------------------------------
  // Order, skipping and continuing
  // ---------------------------------------------------------------------

  /** The later lines are read one after the other: the books of two runs of
      lines are the books of the first run followed by those of the second. */
  lemma LaterBooksAppend(a: seq<string>, b: seq<string>)
    ensures LaterBooks(a + b) == LaterBooks(a) + LaterBooks(b)
  {
    CollectAppend(LaterLineBook, a, b);
  }

  /** Books keep the order of their lines: the books of a longer file start
      with the books of any of its non-empty prefixes. */
  lemma ParseFileAppend(lines: seq<string>, more: seq<string>)
    requires lines != []
    ensures ParseFile(Opened(lines + more)) == ParseFile(Opened(lines)) + LaterBooks(more)
  {
    var all := lines + more;
    assert all[0] == lines[0] && all[1..] == lines[1..] + more;
    LaterBooksAppend(lines[1..], more);
    ParseFileOfLines(all);
    ParseFileOfLines(lines);
    ConcatAssoc(AsSeq(FirstLineBook(lines[0])), LaterBooks(lines[1..]), LaterBooks(more));
  }

  /** A file with lines reads as its first line followed by the others. */
  lemma ParseFileOfLines(lines: seq<string>)
    requires lines != []
    ensures ParseFile(Opened(lines)) == AsSeq(FirstLineBook(lines[0])) + LaterBooks(lines[1..])
  {
  }

  /** A rejected later line (blank, too few fields, a bad number) adds no book
      and does not stop the reading: the lines around it give the same books
      as if it were not there. */
  lemma SkippedLineIgnored(a: seq<string>, line: string, c: seq<string>)
    requires LaterLineBook(line).None?
    ensures LaterBooks(a + [line] + c) == LaterBooks(a) + LaterBooks(c)
  {
    CollectAppend(LaterLineBook, a + [line], c);
    CollectSnoc(LaterLineBook, a, line);
    assert LaterBooks(a + [line]) == LaterBooks(a);
  }

  /** A header line is dropped: the file reads as its later lines alone. */
  lemma HeaderDropped(header: string, rest: seq<string>)
    requires IsHeader(header)
    ensures ParseFile(Opened([header] + rest)) == LaterBooks(rest)
  {
    assert ([header] + rest)[1..] == rest;
  }

  /** An accepted later line adds its book exactly between the books of the
      lines before it and those of the lines after it. */
  lemma AcceptedLineKept(a: seq<string>, line: string, c: seq<string>)
    requires LaterLineBook(line).Some?
    ensures LaterBooks(a + [line] + c) == LaterBooks(a) + [LaterLineBook(line).value] + LaterBooks(c)
  {
    CollectAppend(LaterLineBook, a + [line], c);
    CollectSnoc(LaterLineBook, a, line);
    assert LaterBooks(a + [line]) == LaterBooks(a) + [LaterLineBook(line).value];
  }

  /** The book each line of a file stands for, by position: the first line
      read as a possible header, the others as later lines. */
  function LineBooks(lines: seq<string>): (r: seq<Option<BookState>>)
    ensures |r| == |lines|
  {
    if lines == [] then [] else [FirstLineBook(lines[0])] + Results(LaterLineBook, lines[1..])
  }

  /** Every book comes from its own line, and books appear in the order of
      their lines: some strictly increasing choice of line positions gives,
      for the k-th book, a line that stands for exactly that book. */
  lemma BooksFollowLineOrder(lines: seq<string>)
    ensures exists origins :: Traces(LineBooks(lines), ParseFile(Opened(lines)), origins)
  {
    if lines == [] {
      var none: seq<nat> := [];
      assert Traces(LineBooks(lines), ParseFile(Opened(lines)), none);
    } else {
      var later := lines[1..];
      var first := FirstLineBook(lines[0]);
      CollectOrigins(LaterLineBook, later);
      var o := Origins(LaterLineBook, later);
      var origins := TracesCons(first, Results(LaterLineBook, later), LaterBooks(later), o);
      assert LineBooks(lines) == [first] + Results(LaterLineBook, later);
      ParseFileOfLines(lines);
    }
  }

  // ---------------------------------------------------------------------
  // Writing a catalogue line and reading it back
  // ---------------------------------------------------------------------

  /** A book that can be written as one catalogue line and read back: both
      numbers present, and the texts present, tab-free and without blanks
      at either end. */
  predicate Writable(b: BookState) {
    b.id.Some? && b.publicationYear.Some? && Complete(b)
    && '\t' !in b.isbn.value && '\t' !in b.title.value && '\t' !in b.author.value
    && TrimmedEnds(b.isbn.value) && TrimmedEnds(b.title.value) && TrimmedEnds(b.author.value)
  }

  /** The catalogue line of a book: its five fields separated by tabs. */
  function TsvLine(b: BookState): string
    requires Writable(b)
  {
    Join([IntToString(b.id.value), b.isbn.value, b.title.value, b.author.value, IntToString(b.publicationYear.value)], '\t')
  }

  /** A written catalogue line is read back as the same book, as a later
      line and, unless it happens to look like a header, as the first line. */
  lemma ReadWrittenLine(b: BookState)
    requires Writable(b)
    ensures LaterLineBook(TsvLine(b)) == Some(b)
    ensures !IsHeader(TsvLine(b)) ==> FirstLineBook(TsvLine(b)) == Some(b)
  {
    var fields := [IntToString(b.id.value), b.isbn.value, b.title.value, b.author.value, IntToString(b.publicationYear.value)];
    WrittenLineFields(b);
    assert ParseFields(fields) == Some(b) by {
      WrittenFieldsParse(b);
    }
  }

  /** The fields of a written line parse back to the book. */
  lemma WrittenFieldsParse(b: BookState)
    requires Writable(b)
    ensures ParseFields([IntToString(b.id.value), b.isbn.value, b.title.value, b.author.value, IntToString(b.publicationYear.value)])
      == Some(b)
  {
    var values := [IntToString(b.id.value), b.isbn.value, b.title.value, b.author.value, IntToString(b.publicationYear.value)];
    assert values[0] == IntToString(b.id.value) && values[4] == IntToString(b.publicationYear.value);
    assert values[1] == b.isbn.value && values[2] == b.title.value && values[3] == b.author.value;
    ParseIntOfTrimmedIntToString(b.id.value);
    ParseIntOfTrimmedIntToString(b.publicationYear.value);
    FieldsParse(values, b);
  }

  /** Five fields whose first and fifth trim and parse to the book's id and
      year, and whose others are the book's own texts with nothing for
      `trim` to remove, parse to the book. */
  lemma FieldsParse(values: seq<string>, b: BookState)
    requires |values| == 5 && Complete(b)
    requires ParseInt(Trim(values[0])) == b.id && b.id.Some?
    requires ParseInt(Trim(values[4])) == b.publicationYear && b.publicationYear.Some?
    requires values[1] == b.isbn.value && values[2] == b.title.value && values[3] == b.author.value
    requires TrimmedEnds(values[1]) && TrimmedEnds(values[2]) && TrimmedEnds(values[3])
    ensures ParseFields(values) == Some(b)
  {
    TrimUntouched(values[1]);
    TrimUntouched(values[2]);
    TrimUntouched(values[3]);
  }

  /** A written line has nothing `trim` removes, and cutting it at tabs
      gives back its five fields. */
  lemma WrittenLineFields(b: BookState)
    requires Writable(b)
    ensures Trim(TsvLine(b)) == TsvLine(b) && TsvLine(b) != []
    ensures SplitTab(TsvLine(b))
      == [IntToString(b.id.value), b.isbn.value, b.title.value, b.author.value, IntToString(b.publicationYear.value)]
  {
    var fields := [IntToString(b.id.value), b.isbn.value, b.title.value, b.author.value, IntToString(b.publicationYear.value)];
    assert Trim(TsvLine(b)) == TsvLine(b) by {
      WrittenLineTrimmed(b);
    }
    assert SplitTab(Join(fields, '\t')) == fields by {
      WrittenFieldsTabFree(b);
      SplitTabJoin(fields);
    }
  }

  /** Tab-free fields whose last is not empty, written with tabs between
      them, are cut back into the same fields. */
  lemma SplitTabJoin(fields: seq<string>)
    requires |fields| >= 2 && fields[|fields| - 1] != []
    requires forall i | 0 <= i < |fields| :: NoneIn(fields[i], {'\t'})
    ensures SplitTab(Join(fields, '\t')) == fields
  {
    PiecesJoin(fields, '\t', {'\t'});
    var line := Join(fields, '\t');
    assert line == fields[0] + ['\t'] + Join(fields[1..], '\t');
    assert line[|fields[0]|] == '\t';
  }

  /** A written line starts and ends with a character `trim` keeps, and
      holds a tab after its first field. */
  lemma WrittenLineTrimmed(b: BookState)
    requires Writable(b)
    ensures Trim(TsvLine(b)) == TsvLine(b) && '\t' in TsvLine(b)
  {
    var id, year := IntToString(b.id.value), IntToString(b.publicationYear.value);
    var line := TsvLine(b);
    IntToStringEnds(b.id.value);
    IntToStringEnds(b.publicationYear.value);
    JoinFive([id, b.isbn.value, b.title.value, b.author.value, year], '\t');
    assert line[0] == id[0];
    assert line[|line| - 1] == year[|year| - 1];
    TrimUntouched(line);
    assert line[|id|] == '\t';
  }

  /** No field of a written line holds a tab. */
  lemma WrittenFieldsTabFree(b: BookState)
    requires Writable(b)
    ensures var fields := [IntToString(b.id.value), b.isbn.value, b.title.value, b.author.value, IntToString(b.publicationYear.value)];
      forall i | 0 <= i < |fields| :: NoneIn(fields[i], {'\t'})
  {
    var id, year := IntToString(b.id.value), IntToString(b.publicationYear.value);
    IntToStringChars(b.id.value, {'\t'});
    IntToStringChars(b.publicationYear.value, {'\t'});
    FiveTabFree(id, b.isbn.value, b.title.value, b.author.value, year);
  }

  lemma FiveTabFree(v: string, w: string, x: string, y: string, z: string)
    requires '\t' !in w && '\t' !in x && '\t' !in y
    requires NoneIn(v, {'\t'}) && NoneIn(z, {'\t'})
    ensures forall i | 0 <= i < 5 :: NoneIn([v, w, x, y, z][i], {'\t'})
  {
    var fields := [v, w, x, y, z];
    forall i | 0 <= i < |fields|
      ensures NoneIn(fields[i], {'\t'})
    {
      if i == 0 {
        assert fields[i] == v;
      } else if i == 1 {
        assert fields[i] == w;
      } else if i == 2 {
        assert fields[i] == x;
      } else if i == 3 {
        assert fields[i] == y;
      } else {
        assert fields[i] == z;
      }
    }
  }

  // ---------------------------------------------------------------------
  // Examples
  // ---------------------------------------------------------------------

  /** A line with only four fields is skipped. */
  lemma FourFieldsSkipped()
    ensures LaterLineBook("7\t978-0-1\tFoo\tBar").None?
  {
    FourFieldsKept();
    FourFieldsSplit();
  }

  lemma FourFieldsKept()
    ensures Trim("7\t978-0-1\tFoo\tBar") == "7\t978-0-1\tFoo\tBar"
  {
    TrimUntouched("7\t978-0-1\tFoo\tBar");
  }

  lemma FourFieldsSplit()
    ensures |SplitTab("7\t978-0-1\tFoo\tBar")| == 4
  {
    var line := "7\t978-0-1\tFoo\tBar";
    FourFieldsPieces();
    assert line[1] == '\t';
  }

  lemma FourFieldsPieces()
    ensures Pieces("7\t978-0-1\tFoo\tBar", {'\t'}) == ["7", "978-0-1", "Foo", "Bar"]
  {
    var fields := ["7", "978-0-1", "Foo", "Bar"];
    assert Join(fields, '\t') == "7\t978-0-1\tFoo\tBar" by {
      assert fields[1..][1..] == fields[2..];
      assert fields[2..][1..] == fields[3..];
    }
    PiecesJoin(fields, '\t', {'\t'});
  }
}
