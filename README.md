# Rename-Book, modelled in Dafny

`Rename-Book` is a PowerShell cmdlet that renames a book file after its catalog
metadata. The file's name without its extension is taken as the ISBN. The ISBN is
looked up in the Google Books volume search. Every returned record that has a
title, authors and a publisher becomes a filename candidate of the form
`authors, title [publisher, isbn]`, where any field containing a comma is wrapped
in brackets. If there is one candidate it is used. If there are several, the user
types the index of one. The file keeps its original extension.

The model covers that pipeline, in one module per component:

- `Wrappers`: `Option` and `Result`.
- `Strings`: `string.Join` and the `\d` match, over ASCII digits.
- `Paths`: `Path.GetFileName`, `GetFileNameWithoutExtension` and `GetExtension`, as
  the .NET Framework computes them on Windows. The separators are `\`, `/` and `:`.
- `Sanitizer`: `TextTag` and its bracketing laws.
- `Catalog`: the catalog response as typed records. An absent key is `None`.
- `CandidateBuilder`: filtering records and formatting candidates, as specification
  functions with their lemmas.
- `RenameBook`:
  - the error cases;
  - `GetIsbn` and the choice among candidates;
  - `IsbnToName`, the imperative loop that collects candidates;
  - `GetNewName`.

Two inputs are parameters:

- The catalog lookup is a function from ISBN to the response's items.
- The interactive prompt is a function from the displayed candidate list to the
  index the user types.

A record with no `volumeInfo` key is not skipped. The dictionary lookup of that key
(Theta.Powershell.Commands/RenameBookCommand.cs:74) throws, and the rename fails.
The model fails with `MissingVolumeInfo` at the first such record.

## Model

| member | source | states |
|---|---|---|
| `Strings.ContainsDigit` | Theta.Powershell.Commands/RenameBookCommand.cs:29 | the scan for `\d` is true exactly when some character is an ASCII digit |
| `Strings.Join` | Theta.Powershell.Commands/RenameBookCommand.cs:80 | `string.Join`; its two-part case is `JoinTwo` and the characters of a join are given by `CharInJoin` |
| `Strings.JoinTwo` | Theta.Powershell.Commands/RenameBookCommand.cs:83 | joining two strings puts the separator between them once |
| `Strings.CharInJoin` | Theta.Powershell.Commands/RenameBookCommand.cs:80 | a character is in a join exactly when it is in a part, or in the separator and there are at least two parts |
| `Paths.FileName` | Theta.Powershell.Commands/RenameBookCommand.cs:28 | the file name is a suffix of the path with no separator, preceded by a separator unless it is the whole path |
| `Paths.StemOf` | Theta.Powershell.Commands/RenameBookCommand.cs:28 | the name without extension is a prefix of the file name that stops just before its last dot, and is the whole name only when the name has no dot |
| `Paths.ExtensionOf` | Theta.Powershell.Commands/RenameBookCommand.cs:38 | the extension is a suffix of the file name: a dot and at least one more character, none of them a dot; it is empty exactly when the name has no dot or ends in one |
| `Paths.Stem` | Theta.Powershell.Commands/RenameBookCommand.cs:28 | `GetFileNameWithoutExtension`: `StemOf` of the `FileName`; see `StemOf` and `SplitFileName` |
| `Paths.Extension` | Theta.Powershell.Commands/RenameBookCommand.cs:38 | `GetExtension`: `ExtensionOf` of the `FileName`; see `ExtensionOf` and `SplitFileName` |
| `Paths.SplitFileName` | Theta.Powershell.Commands/RenameBookCommand.cs:28-38 | stem followed by extension gives back the file name; a trailing dot is dropped from both |
| `Paths.SplitPlainName` | Theta.Powershell.Commands/RenameBookCommand.cs:28-38 | a plain `stem.ext` has stem `stem` and extension `.ext` |
| `Sanitizer.TextTag` | Theta.Powershell.Commands/RenameBookCommand.cs:45-48 | a text is changed exactly when it has a comma, and then it is wrapped in brackets; commas are kept |
| `Sanitizer.TextTagIdempotentIff` | Theta.Powershell.Commands/RenameBookCommand.cs:47 | tagging twice equals tagging once exactly when the text has no comma |
| `Sanitizer.TextTagNestsOnComma` | Theta.Powershell.Commands/RenameBookCommand.cs:47 | `a,b` tags to `[a,b]`, and tagging that again gives `[[a,b]]` |
| `Sanitizer.TextTagInjective` | Theta.Powershell.Commands/RenameBookCommand.cs:47 | different texts get different tags |
| `Sanitizer.TagTimesLayers` | Theta.Powershell.Commands/RenameBookCommand.cs:47 | n tags on a comma text give n bracket layers; on a comma-free text they change nothing |
| `CandidateBuilder.TagAll` | Theta.Powershell.Commands/RenameBookCommand.cs:80 | one entry per author name, in order, each the name passed through `TextTag` |
| `CandidateBuilder.UsableInfos` | Theta.Powershell.Commands/RenameBookCommand.cs:74-77 | the kept records are at most as many as the items, and each has title, authors and publisher |
| `CandidateBuilder.Candidate` | Theta.Powershell.Commands/RenameBookCommand.cs:79-83 | the formatting of one complete record; its shape is stated by `CandidateShape`, `CommaFreeCandidate` and `CandidateEndsWithIsbn` |
| `CandidateBuilder.AuthorsField` | Theta.Powershell.Commands/RenameBookCommand.cs:80 | the authors part; when it is bracketed is stated by `AuthorsBracketedIff`, `SeveralAuthorsBracketed`, `SingleAuthor` and `TwoAuthors` |
| `CandidateBuilder.Candidates` | Theta.Powershell.Commands/RenameBookCommand.cs:71-84 | the candidate of each kept record (`UsableInfos`), in record order; never more candidates than items; membership and order are stated by `CandidatesMembership`, `CandidatesAppend` and `CandidatePosition` |
| `CandidateBuilder.FirstMissingVolumeInfo` | Theta.Powershell.Commands/RenameBookCommand.cs:74 | finds the first item with no `volumeInfo`; `None` exactly when every item has one |
| `CandidateBuilder.CandidateShape` | Theta.Powershell.Commands/RenameBookCommand.cs:79-83 | a candidate is `authors', title' [publisher', isbn]`: the publisher-and-isbn part always has a comma, so it is always bracketed |
| `CandidateBuilder.CommaFreeCandidate` | Theta.Powershell.Commands/RenameBookCommand.cs:79-83 | comma-free fields and one author `a` give `a, title [publisher, isbn]` |
| `CandidateBuilder.CandidateEndsWithIsbn` | Theta.Powershell.Commands/RenameBookCommand.cs:83 | every candidate ends in `, isbn]` |
| `CandidateBuilder.AuthorsBracketedIff` | Theta.Powershell.Commands/RenameBookCommand.cs:80 | the authors part is bracketed exactly when there are two or more names, or some name has a comma |
| `CandidateBuilder.SeveralAuthorsBracketed` | Theta.Powershell.Commands/RenameBookCommand.cs:80 | two or more authors always render bracketed |
| `CandidateBuilder.SingleAuthor` | Theta.Powershell.Commands/RenameBookCommand.cs:80 | one comma-free author renders as is; one author with a comma gets two bracket layers |
| `CandidateBuilder.TwoAuthors` | Theta.Powershell.Commands/RenameBookCommand.cs:80 | comma-free authors `a`, `b` render as `[a, b]` |
| `CandidateBuilder.CandidatesOfOne` | Theta.Powershell.Commands/RenameBookCommand.cs:76-83 | one record gives its candidate when usable and nothing otherwise |
| `CandidateBuilder.UsableInfosAppend` | Theta.Powershell.Commands/RenameBookCommand.cs:72-77 | the records kept from two runs are those of the first run followed by those of the second |
| `CandidateBuilder.CandidatesAppend` | Theta.Powershell.Commands/RenameBookCommand.cs:72-84 | candidates keep the input order: those of a concatenation are the first run's followed by the second's |
| `CandidateBuilder.UsableInfosMembership` | Theta.Powershell.Commands/RenameBookCommand.cs:74-77 | a record's metadata is kept exactly when some usable item carries it |
| `CandidateBuilder.CandidatesMembership` | Theta.Powershell.Commands/RenameBookCommand.cs:72-84 | a string is a candidate exactly when it is the candidate of some usable record |
| `CandidateBuilder.CandidatesEmptyIff` | Theta.Powershell.Commands/RenameBookCommand.cs:76-77 | there are no candidates exactly when no record has title, authors and publisher |
| `CandidateBuilder.CandidatePosition` | Theta.Powershell.Commands/RenameBookCommand.cs:83 | a usable record's candidate comes right after the candidates of the records before it |
| `CandidateBuilder.UsableInfosAllIff` | Theta.Powershell.Commands/RenameBookCommand.cs:76-77 | every record is kept exactly when every record is usable |
| `RenameBook.Message` | Theta.Powershell.Commands/RenameBookCommand.cs:30-90 | the three exception messages of the command name the offending stem or ISBN |
| `RenameBook.GetIsbn` | Theta.Powershell.Commands/RenameBookCommand.cs:26-33 | succeeds exactly when the file stem contains a digit, returning the stem unchanged; otherwise fails with `InvalidIsbn` naming the stem |
| `RenameBook.Choose` | Theta.Powershell.Commands/RenameBookCommand.cs:87-98 | none is `NoValidRecords` (and only then); one is returned without asking; from several, the one at the user's index, or `IndexOutOfRange`; a success is always a candidate |
| `RenameBook.Outcome` | Theta.Powershell.Commands/RenameBookCommand.cs:66-98 | what `IsbnToName` computes: "no records" exactly when there are no items, and a success is always one of the candidates |
| `RenameBook.IsbnToName` | Theta.Powershell.Commands/RenameBookCommand.cs:59-101 | the loop that collects candidates computes `Outcome`: `NoRecords` for no items, `MissingVolumeInfo` at the first item without metadata, else the choice among the candidates |
| `RenameBook.GetNewName` | Theta.Powershell.Commands/RenameBookCommand.cs:35-41 | an invalid ISBN fails before the catalog is consulted; otherwise the result is the chosen candidate followed by the extension, or the lookup's error |
| `RenameBook.NoRecordsIff` | Theta.Powershell.Commands/RenameBookCommand.cs:66-68 | "no records" is reported exactly when the catalog returned no items |
| `RenameBook.NoValidRecordsIff` | Theta.Powershell.Commands/RenameBookCommand.cs:89-90 | "no valid records" is reported exactly when there are items, all with metadata, none usable |
| `RenameBook.SuccessNamesRecord` | Theta.Powershell.Commands/RenameBookCommand.cs:83-98 | a successful name is the candidate of some usable record and ends in `, isbn]` |
| `RenameBook.SingleUsableRecord` | Theta.Powershell.Commands/RenameBookCommand.cs:91-92 | with exactly one usable record, its candidate is returned whatever the user would answer |
| `RenameBook.SecondOfTwoChosen` | Theta.Powershell.Commands/RenameBookCommand.cs:93-98 | with two usable records and the answer 1, the second record's candidate is returned |
| `RenameBook.DuneCandidate` | Theta.Powershell.Commands/RenameBookCommand.cs:79-83 | Dune, Frank Herbert, Ace Books, 9780441013593 gives `Frank Herbert, Dune [Ace Books, 9780441013593]` |
| `RenameBook.DunePath` | Theta.Powershell.Commands/RenameBookCommand.cs:28-38 | `9780441013593.epub` has ISBN `9780441013593` and extension `.epub` |
| `RenameBook.DuneExample` | Theta.Powershell.Commands/RenameBookCommand.cs:59-92 | a lookup whose only record is Dune gives that candidate without asking |

## Left out

- The HTTP request to the catalog (`WebClient.DownloadString`) is network I/O. The response's items are an input.
- JSON deserialisation is a foreign library. The response is typed, and its `items` key is always present.
- JSON `null` values and values of the wrong type are not modelled. A present key always holds a string, or a list of strings for `authors`.
- The console listing of candidates and the `ReadLine` re-prompt loop are interactive I/O. They become an injected index function.
- `int.Parse` of the typed line is not modelled. The line may contain a digit and still not parse.
- `ProcessRecord`, the provider's `Rename` call and parameter binding are host glue. This includes the non-empty check on `Path`.
- Path parsing raises exceptions on invalid path characters in .NET. That check is left out, and only Windows separators are modelled.
- `\d` in .NET also matches non-ASCII Unicode digits. The model accepts only `0`–`9`.
