/** Candidate building: each catalog record with a title, authors and a publisher
    becomes one filename candidate `authors, title [publisher, isbn]`, tagged by the
    sanitiser wherever a comma shows up; the other records are skipped. */
module CandidateBuilder {
  import opened Wrappers
  import opened Strings
  import opened Sanitizer
  import opened Catalog

  /** The record has every field a candidate needs. */
  predicate IsComplete(info: VolumeInfo) {
    info.title.Some? && info.authors.Some? && info.publisher.Some?
  }

  /** The record yields a candidate. */
  predicate IsUsable(item: Item) {
    item.volumeInfo.Some? && IsComplete(item.volumeInfo.value)
  }

  /** The author names, each tagged. */
  function TagAll(names: seq<string>): (r: seq<string>)
    ensures |r| == |names|
    ensures forall k :: 0 <= k < |r| ==> r[k] == TextTag(names[k])
  {
    if |names| == 0 then [] else [TextTag(names[0])] + TagAll(names[1..])
  }

  /** The authors part of a candidate: the tagged names joined by `", "`, tagged as
      a whole. */
  function AuthorsField(authors: seq<string>): string
  {
    TextTag(Join(", ", TagAll(authors)))
  }

  /** The candidate for a complete record, assembled as the command does it: two
      joins by `", "`, one by `" "`, and the sanitiser on each field and on the
      publisher-and-isbn part. */
  function Candidate(info: VolumeInfo, isbn: string): string
    requires IsComplete(info)
  {
    var title := TextTag(info.title.value);
    var authors := AuthorsField(info.authors.value);
    var publisher := TextTag(info.publisher.value);
    Join(" ", [Join(", ", [authors, title]), TextTag(Join(", ", [publisher, isbn]))])
  }

  /** The metadata of the usable records, in record order. */
  function UsableInfos(items: seq<Item>): (r: seq<VolumeInfo>)
    ensures |r| <= |items|
    ensures forall k :: 0 <= k < |r| ==> IsComplete(r[k])
  {
    if |items| == 0 then []
    else
      var last := items[|items| - 1];
      UsableInfos(items[..|items| - 1]) + if IsUsable(last) then [last.volumeInfo.value] else []
  }

  /** The candidate of each complete record. */
  function FormatAll(infos: seq<VolumeInfo>, isbn: string): (r: seq<string>)
    requires forall k :: 0 <= k < |infos| ==> IsComplete(infos[k])
    ensures |r| == |infos|
    ensures forall k :: 0 <= k < |infos| ==> r[k] == Candidate(infos[k], isbn)
  {
    seq(|infos|, k requires 0 <= k < |infos| => Candidate(infos[k], isbn))
  }

  /** The candidates of all records: one per usable record, in record order. */
  function Candidates(items: seq<Item>, isbn: string): (r: seq<string>)
    ensures |r| <= |items|
  {
    FormatAll(UsableInfos(items), isbn)
  }

  /** The first record without a `volumeInfo`, where the command's lookup of that key
      fails. */
  function FirstMissingVolumeInfo(items: seq<Item>): (r: Option<nat>)
    ensures r.Some? ==> r.value < |items| && items[r.value].volumeInfo.None? &&
                        forall j :: 0 <= j < r.value ==> items[j].volumeInfo.Some?
    ensures r.None? <==> forall j :: 0 <= j < |items| ==> items[j].volumeInfo.Some?
  {
    if |items| == 0 then None
    else if items[0].volumeInfo.None? then Some(0)
    else
      match FirstMissingVolumeInfo(items[1..])
      case None => None
      case Some(k) => Some(k + 1)
  }

  /** Every candidate has the shape `authors, title [publisher, isbn]`: the
      publisher-and-isbn part always contains a comma, so it is always bracketed. */
  lemma CandidateShape(info: VolumeInfo, isbn: string)
    requires IsComplete(info)
    ensures Candidate(info, isbn) ==
              AuthorsField(info.authors.value) + ", " + TextTag(info.title.value) + " [" +
              TextTag(info.publisher.value) + ", " + isbn + "]"
  {
    var title := TextTag(info.title.value);
    var authors := AuthorsField(info.authors.value);
    var publisher := TextTag(info.publisher.value);
    JoinTwo(", ", authors, title);
    JoinTwo(", ", publisher, isbn);
    var tail := publisher + ", " + isbn;
    assert tail[|publisher|] == ',';
    JoinTwo(" ", authors + ", " + title, TextTag(tail));
  }

  /** A record whose fields have no comma and which has a single author `a`
      yields `a, title [publisher, isbn]`. */
  lemma CommaFreeCandidate(title: string, a: string, publisher: string, isbn: string)
    requires ',' !in title && ',' !in a && ',' !in publisher
    ensures Candidate(VolumeInfo(Some(title), Some([a]), Some(publisher)), isbn) ==
              a + ", " + title + " [" + publisher + ", " + isbn + "]"
  {
    CandidateShape(VolumeInfo(Some(title), Some([a]), Some(publisher)), isbn);
    SingleAuthor(a);
  }

  /** Every candidate ends in `, isbn]`. */
  lemma CandidateEndsWithIsbn(info: VolumeInfo, isbn: string)
    requires IsComplete(info)
    ensures var c := Candidate(info, isbn);
            |c| >= |isbn| + 3 && c[|c| - |isbn| - 3..] == ", " + isbn + "]"
  {
    CandidateShape(info, isbn);
    var head := AuthorsField(info.authors.value) + ", " + TextTag(info.title.value) + " [" +
                TextTag(info.publisher.value);
    var tail := ", " + isbn + "]";
    assert Candidate(info, isbn) == head + tail;
    assert (head + tail)[|head|..] == tail;
  }

  /** The authors part is bracketed exactly when there are two names or more (the
      join puts a comma between them) or some name has a comma of its own. */
  lemma AuthorsBracketedIff(authors: seq<string>)
    ensures var joined := Join(", ", TagAll(authors));
            AuthorsField(authors) == "[" + joined + "]" <==>
              |authors| >= 2 || exists i :: 0 <= i < |authors| && ',' in authors[i]
  {
    var tagged := TagAll(authors);
    CharInJoin(", ", tagged, ',');
    assert ',' in ", ";
    var joined := Join(", ", tagged);
    if ',' !in joined {
      assert AuthorsField(authors) == joined;
      assert |"[" + joined + "]"| != |joined|;
    }
  }

  /** Two names or more always render bracketed. */
  lemma SeveralAuthorsBracketed(authors: seq<string>)
    requires |authors| >= 2
    ensures AuthorsField(authors) == "[" + Join(", ", TagAll(authors)) + "]"
  {
    AuthorsBracketedIff(authors);
  }

  /** A single name without a comma renders as it is; a single name with a comma
      gets two layers of brackets, one from its own tag and one from the tag of the
      joined list. */
  lemma SingleAuthor(name: string)
    ensures ',' !in name ==> AuthorsField([name]) == name
    ensures ',' in name ==> AuthorsField([name]) == "[[" + name + "]]"
  {
    assert TagAll([name]) == [TextTag(name)];
  }

  /** Two comma-free names `a` and `b` render as `[a, b]`. */
  lemma TwoAuthors(a: string, b: string)
    requires ',' !in a && ',' !in b
    ensures AuthorsField([a, b]) == "[" + a + ", " + b + "]"
  {
    assert TagAll([a, b]) == [a, b];
    JoinTwo(", ", a, b);
    SeveralAuthorsBracketed([a, b]);
  }

  /** The usable records of two runs are those of the first run followed by those
      of the second. */
  lemma {:induction false} UsableInfosAppend(a: seq<Item>, b: seq<Item>)
    ensures UsableInfos(a + b) == UsableInfos(a) + UsableInfos(b)
  {
    if |b| > 0 {
      var b' := b[..|b| - 1];
      UsableInfosAppend(a, b');
      assert (a + b)[..|a + b| - 1] == a + b';
      assert (a + b)[|a + b| - 1] == b[|b| - 1];
    } else {
      assert a + b == a;
    }
  }

  /** The candidates of two runs of records are the candidates of the first run
      followed by those of the second: the order of the records is kept. */
  lemma CandidatesAppend(a: seq<Item>, b: seq<Item>, isbn: string)
    ensures Candidates(a + b, isbn) == Candidates(a, isbn) + Candidates(b, isbn)
  {
    UsableInfosAppend(a, b);
  }

  /** A single record yields its candidate when it is usable, and nothing otherwise. */
  lemma CandidatesOfOne(item: Item, isbn: string)
    ensures Candidates([item], isbn) == if IsUsable(item) then [Candidate(item.volumeInfo.value, isbn)] else []
  {
    assert [item][..0] == [];
  }

  /** The metadata `info` is listed exactly when some usable record carries it. */
  lemma {:induction false} UsableInfosMembership(items: seq<Item>, info: VolumeInfo)
    ensures info in UsableInfos(items) <==>
              exists i :: 0 <= i < |items| && IsUsable(items[i]) && items[i].volumeInfo.value == info
  {
    if |items| > 0 {
      var n := |items| - 1;
      var init := items[..n];
      UsableInfosMembership(init, info);
      if exists i :: 0 <= i < |items| && IsUsable(items[i]) && items[i].volumeInfo.value == info {
        var i :| 0 <= i < |items| && IsUsable(items[i]) && items[i].volumeInfo.value == info;
        if i < n {
          assert init[i] == items[i];
        }
      }
      if exists i :: 0 <= i < |init| && IsUsable(init[i]) && init[i].volumeInfo.value == info {
        var i :| 0 <= i < |init| && IsUsable(init[i]) && init[i].volumeInfo.value == info;
        assert init[i] == items[i];
      }
    }
  }

  /** `c` is the candidate of `item`. */
  predicate Yields(item: Item, isbn: string, c: string) {
    IsUsable(item) && c == Candidate(item.volumeInfo.value, isbn)
  }

  /** A string is a candidate exactly when it is the candidate of some usable record. */
  lemma CandidatesMembership(items: seq<Item>, isbn: string, c: string)
    ensures c in Candidates(items, isbn) <==> exists i :: 0 <= i < |items| && Yields(items[i], isbn, c)
  {
    var infos := UsableInfos(items);
    if c in Candidates(items, isbn) {
      var k :| 0 <= k < |infos| && Candidates(items, isbn)[k] == c;
      assert infos[k] in infos;
      UsableInfosMembership(items, infos[k]);
    }
    if exists i :: 0 <= i < |items| && Yields(items[i], isbn, c) {
      var i :| 0 <= i < |items| && Yields(items[i], isbn, c);
      var info := items[i].volumeInfo.value;
      UsableInfosMembership(items, info);
      var k :| 0 <= k < |infos| && infos[k] == info;
      assert Candidates(items, isbn)[k] == c;
    }
  }

  /** There is no candidate exactly when no record is usable. */
  lemma CandidatesEmptyIff(items: seq<Item>, isbn: string)
    ensures Candidates(items, isbn) == [] <==> forall i :: 0 <= i < |items| ==> !IsUsable(items[i])
  {
    var infos := UsableInfos(items);
    if i :| 0 <= i < |items| && IsUsable(items[i]) {
      UsableInfosMembership(items, items[i].volumeInfo.value);
    }
    if infos != [] {
      assert infos[0] in infos;
      UsableInfosMembership(items, infos[0]);
    }
  }

  /** A usable record's candidate sits right after the candidates of the records
      before it. */
  lemma CandidatePosition(items: seq<Item>, j: nat, isbn: string)
    requires j < |items| && IsUsable(items[j])
    ensures var k := |Candidates(items[..j], isbn)|;
            k < |Candidates(items, isbn)| &&
            Candidates(items, isbn)[k] == Candidate(items[j].volumeInfo.value, isbn)
  {
    assert items == items[..j] + ([items[j]] + items[j + 1..]);
    UsableInfosAppend(items[..j], [items[j]] + items[j + 1..]);
    UsableInfosAppend([items[j]], items[j + 1..]);
    assert [items[j]][..0] == [];
  }

  /** Every record yields a candidate exactly when every record is usable. */
  lemma {:induction false} UsableInfosAllIff(items: seq<Item>)
    ensures |UsableInfos(items)| == |items| <==> forall i :: 0 <= i < |items| ==> IsUsable(items[i])
  {
    if |items| > 0 {
      var n := |items| - 1;
      var init := items[..n];
      UsableInfosAllIff(init);
      assert forall i :: 0 <= i < n ==> init[i] == items[i];
    }
  }
}
