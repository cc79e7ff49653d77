/** The rename pipeline of the `Rename-Book` command: take the ISBN from the file
    name, look it up in the catalog, build the filename candidates, let the user
    pick one when there are several, and keep the original extension. The catalog
    lookup and the user's choice are parameters. */
module RenameBook {
  import opened Wrappers
  import opened Strings
  import opened Paths
  import opened Sanitizer
  import opened Catalog
  import opened CandidateBuilder

  /** Why a rename stops. The first three are the command's own exceptions; the
      last two are failures of the runtime the command does not guard against. */
  datatype Error =
    | InvalidIsbn(stem: string)                // the file stem has no digit
    | NoRecords(isbn: string)                  // the catalog returned no items
    | NoValidRecords(isbn: string)             // no item had title, authors and publisher
    | MissingVolumeInfo(item: nat)             // the item at this position has no `volumeInfo` key
    | IndexOutOfRange(index: int, count: nat)  // the chosen index names no candidate

  /** The message of the command's own exceptions, naming the offending ISBN. The
      pipeline returns the `Error` itself; this gives the text a user would see. */
  function Message(e: Error): (m: string)
    requires e.InvalidIsbn? || e.NoRecords? || e.NoValidRecords?
    ensures e.InvalidIsbn? ==> |e.stem| <= |m| && m[..|e.stem|] == e.stem
    ensures e.NoRecords? ==> |e.isbn| <= |m| && m[|m| - |e.isbn|..] == e.isbn
    ensures e.NoValidRecords? ==> |e.isbn| <= |m| && m[|m| - |e.isbn|..] == e.isbn
  {
    match e
    case InvalidIsbn(stem) => stem + " does not look like a valid isbn."
    case NoRecords(isbn) => "No records returned for " + isbn
    case NoValidRecords(isbn) => "No valid records returned for " + isbn
  }

  /** `GetIsbn`: the stem of the path is the ISBN exactly when it contains a digit. */
  function GetIsbn(path: string): (r: Result<string, Error>)
    ensures r.Success? <==> exists i :: 0 <= i < |Stem(path)| && IsAsciiDigit(Stem(path)[i])
    ensures r.Success? ==> r.value == Stem(path)
    ensures r.Failure? ==> r.error == InvalidIsbn(Stem(path))
  {
    var isbn := Stem(path);
    if !ContainsDigit(isbn) then Failure(InvalidIsbn(isbn)) else Success(isbn)
  }

  /** The choice among the candidates: none is an error, a single one is taken
      without asking, and from several the one at the index the user gives. */
  function Choose(candidates: seq<string>, isbn: string, selectIndex: seq<string> -> int): (r: Result<string, Error>)
    ensures r.Success? ==> r.value in candidates
    ensures r == Failure(NoValidRecords(isbn)) <==> |candidates| == 0
    ensures |candidates| == 1 ==> r == Success(candidates[0])
    ensures |candidates| >= 2 ==>
              var idx := selectIndex(candidates);
              if 0 <= idx < |candidates| then r == Success(candidates[idx])
              else r == Failure(IndexOutOfRange(idx, |candidates|))
  {
    if |candidates| == 0 then Failure(NoValidRecords(isbn))
    else if |candidates| == 1 then Success(candidates[0])
    else
      var idx := selectIndex(candidates);
      if 0 <= idx < |candidates| then Success(candidates[idx])
      else Failure(IndexOutOfRange(idx, |candidates|))
  }

  /** What `IsbnToName` computes from the catalog's items. */
  function Outcome(isbn: string, items: seq<Item>, selectIndex: seq<string> -> int): (r: Result<string, Error>)
    ensures r == Failure(NoRecords(isbn)) <==> |items| == 0
    ensures r.Success? ==> r.value in Candidates(items, isbn)
  {
    if |items| == 0 then Failure(NoRecords(isbn))
    else match FirstMissingVolumeInfo(items)
      case Some(i) => Failure(MissingVolumeInfo(i))
      case None => Choose(Candidates(items, isbn), isbn, selectIndex)
  }

  /** `IsbnToName`, given the catalog's items for `isbn`: builds the candidates
      record by record, skipping incomplete records, then chooses. */
  method IsbnToName(isbn: string, items: seq<Item>, selectIndex: seq<string> -> int) returns (r: Result<string, Error>)
    ensures r == Outcome(isbn, items, selectIndex)
  {
    if |items| == 0 {
      return Failure(NoRecords(isbn));
    }
    var filenames: seq<string> := [];
    var i := 0;
    while i < |items|
      invariant 0 <= i <= |items|
      invariant forall j :: 0 <= j < i ==> items[j].volumeInfo.Some?
      invariant filenames == Candidates(items[..i], isbn)
    {
      if items[i].volumeInfo.None? {
        return Failure(MissingVolumeInfo(i));
      }
      var info := items[i].volumeInfo.value;
      assert items[..i + 1] == items[..i] + [items[i]];
      CandidatesAppend(items[..i], [items[i]], isbn);
      if !IsComplete(info) {
        i := i + 1;
        continue;
      }
      filenames := filenames + [Candidate(info, isbn)];
      i := i + 1;
    }
    assert items[..i] == items;
    r := Choose(filenames, isbn, selectIndex);
  }

  /** `GetNewName`: the chosen candidate followed by the path's extension. An
      invalid ISBN fails before the catalog is consulted. */
  method GetNewName(path: string, catalog: string -> seq<Item>, selectIndex: seq<string> -> int)
    returns (r: Result<string, Error>)
    ensures GetIsbn(path).Failure? ==> r == Failure(InvalidIsbn(Stem(path)))
    ensures GetIsbn(path).Success? ==>
              var outcome := Outcome(Stem(path), catalog(Stem(path)), selectIndex);
              r == if outcome.Success? then Success(outcome.value + Extension(path))
                   else Failure(outcome.error)
  {
    var isbn := GetIsbn(path);
    if isbn.Failure? {
      return Failure(isbn.error);
    }
    var name := IsbnToName(isbn.value, catalog(isbn.value), selectIndex);
    if name.Failure? {
      return Failure(name.error);
    }
    r := Success(name.value + Extension(path));
  }

  /** "No records" is reported exactly when the catalog returned no items. */
  lemma NoRecordsIff(isbn: string, items: seq<Item>, selectIndex: seq<string> -> int)
    ensures Outcome(isbn, items, selectIndex) == Failure(NoRecords(isbn)) <==> |items| == 0
  {
  }

  /** "No valid records" is reported exactly when there are items, each has its
      metadata, and none has a title, authors and a publisher. */
  lemma NoValidRecordsIff(isbn: string, items: seq<Item>, selectIndex: seq<string> -> int)
    ensures Outcome(isbn, items, selectIndex) == Failure(NoValidRecords(isbn)) <==>
              |items| > 0 && (forall i :: 0 <= i < |items| ==> items[i].volumeInfo.Some?) &&
              (forall i :: 0 <= i < |items| ==> !IsUsable(items[i]))
  {
    CandidatesEmptyIff(items, isbn);
  }

  /** A successful lookup names one of the records: the result is the candidate of a
      usable record, and it ends in `, isbn]`. */
  lemma SuccessNamesRecord(isbn: string, items: seq<Item>, selectIndex: seq<string> -> int)
    requires Outcome(isbn, items, selectIndex).Success?
    ensures var name := Outcome(isbn, items, selectIndex).value;
            (exists i :: 0 <= i < |items| && Yields(items[i], isbn, name)) &&
            |name| >= |isbn| + 3 && name[|name| - |isbn| - 3..] == ", " + isbn + "]"
  {
    var name := Outcome(isbn, items, selectIndex).value;
    assert name in Candidates(items, isbn);
    CandidatesMembership(items, isbn, name);
    var i :| 0 <= i < |items| && Yields(items[i], isbn, name);
    CandidateEndsWithIsbn(items[i].volumeInfo.value, isbn);
  }

  /** When exactly one record is usable its candidate is the result, whatever the
      user would have chosen. */
  lemma SingleUsableRecord(isbn: string, items: seq<Item>, j: nat, selectIndex: seq<string> -> int)
    requires j < |items| && IsUsable(items[j])
    requires forall i :: 0 <= i < |items| ==> items[i].volumeInfo.Some?
    requires forall i :: 0 <= i < |items| && i != j ==> !IsUsable(items[i])
    ensures Outcome(isbn, items, selectIndex) == Success(Candidate(items[j].volumeInfo.value, isbn))
  {
    var before, after := items[..j], items[j + 1..];
    assert items == before + ([items[j]] + after);
    CandidatesAppend(before, [items[j]] + after, isbn);
    CandidatesAppend([items[j]], after, isbn);
    CandidatesEmptyIff(before, isbn);
    CandidatesEmptyIff(after, isbn);
    assert forall i :: 0 <= i < |after| ==> after[i] == items[j + 1 + i];
    assert [items[j]][..0] == [];
    assert Candidates([items[j]], isbn) == [Candidate(items[j].volumeInfo.value, isbn)];
  }

  /** With two usable records and the user's answer 1, the second record's
      candidate is the result. */
  lemma SecondOfTwoChosen(isbn: string, first: VolumeInfo, second: VolumeInfo, selectIndex: seq<string> -> int)
    requires IsComplete(first) && IsComplete(second)
    requires selectIndex([Candidate(first, isbn), Candidate(second, isbn)]) == 1
    ensures Outcome(isbn, [Item(Some(first)), Item(Some(second))], selectIndex) ==
              Success(Candidate(second, isbn))
  {
    var a, b := Item(Some(first)), Item(Some(second));
    assert [a, b] == [a] + [b];
    CandidatesAppend([a], [b], isbn);
    CandidatesOfOne(a, isbn);
    CandidatesOfOne(b, isbn);
    assert Candidates([a, b], isbn) == [Candidate(first, isbn), Candidate(second, isbn)];
    assert FirstMissingVolumeInfo([a, b]).None?;
  }

  /** Dune's candidate for ISBN 9780441013593. */
  lemma DuneCandidate()
    ensures Candidate(VolumeInfo(Some("Dune"), Some(["Frank Herbert"]), Some("Ace Books")), "9780441013593") == "Frank Herbert, Dune [Ace Books, 9780441013593]"
  {
    CommaFreeCandidate("Dune", "Frank Herbert", "Ace Books", "9780441013593");
    LiteralDune();
  }

  /** The Dune candidate's pieces concatenate to the expected string; kept apart so
      that the literal equality is proved without the formatting functions in scope. */
  lemma LiteralDune()
    ensures "Frank Herbert" + ", " + "Dune" + " [" + "Ace Books" + ", " + "9780441013593" + "]" ==
            "Frank Herbert, Dune [Ace Books, 9780441013593]"
  {
  }

  /** `9780441013593` and `epub` joined by a dot make the example path; kept apart for
      the same reason as `LiteralDune`. */
  lemma LiteralPath()
    ensures "9780441013593" + "." + "epub" == "9780441013593.epub"
  {
  }

  /** The path `9780441013593.epub` has the ISBN 9780441013593 and the extension
      `.epub`. */
  lemma DunePath()
    ensures GetIsbn("9780441013593.epub") == Success("9780441013593")
    ensures Extension("9780441013593.epub") == ".epub"
  {
    SplitPlainName("9780441013593", "epub");
    LiteralPath();
    assert IsAsciiDigit("9780441013593"[0]);
  }

  /** The file `9780441013593.epub` whose only catalog record is Dune is renamed to
      `Frank Herbert, Dune [Ace Books, 9780441013593].epub`, without asking. */
  lemma DuneExample(selectIndex: seq<string> -> int)
    ensures Outcome("9780441013593", [Item(Some(VolumeInfo(Some("Dune"), Some(["Frank Herbert"]), Some("Ace Books"))))], selectIndex) ==
              Success("Frank Herbert, Dune [Ace Books, 9780441013593]")
  {
    DuneCandidate();
    SingleUsableRecord("9780441013593", [Item(Some(VolumeInfo(Some("Dune"), Some(["Frank Herbert"]), Some("Ace Books"))))], 0, selectIndex);
  }
}
