/**
 * The client's citation export: APA-like, MLA-like and BibTeX renderings of a paper.
 */
module CitationExport {
  import opened Wrappers
  import opened Strings
  import opened Papers

  datatype CitationFormat = Apa | Mla | Bibtex

  const UnknownAuthor := "Unknown"
  const NoDate := "n.d."

  /** `paper.authors.split(',').map(a => a.trim())`. */
  function AuthorList(authors: string): (r: seq<string>)
    ensures |r| >= 1
    ensures |r| == |Split(authors, ',')|
    ensures forall i :: 0 <= i < |r| ==> r[i] == JsTrim(Split(authors, ',')[i])
  {
    var parts := Split(authors, ',');
    seq(|parts|, i requires 0 <= i < |parts| => JsTrim(parts[i]))
  }

  /** `authors[0] || 'Unknown'`: the first author, or "Unknown" when it is empty. */
  function FirstAuthor(authors: seq<string>): (r: string)
    requires |authors| >= 1
    ensures r != ""
    ensures authors[0] != "" ==> r == authors[0]
    ensures authors[0] == "" ==> r == UnknownAuthor
  {
    if authors[0] == "" then UnknownAuthor else authors[0]
  }

  /** `paper.pubdate?.split(' ')[0] || 'n.d.'`: the text before the first space, or "n.d." when
      that is empty or the date is missing. */
  function CitationYear(pubdate: Option<string>): (r: string)
    ensures r != "" && ' ' !in r
    ensures pubdate.None? ==> r == NoDate
    ensures pubdate.Some? && FirstField(pubdate.value, ' ') != "" ==>
              StartsWith(pubdate.value, r)
              && (|r| == |pubdate.value| || pubdate.value[|r|] == ' ')
    ensures pubdate.Some? && (pubdate.value == "" || pubdate.value[0] == ' ') ==> r == NoDate
  {
    match pubdate
    case None => NoDate
    case Some(p) =>
      var f := FirstField(p, ' ');
      if f == "" then NoDate else f
  }

  /** The APA author part: "<first> et al." beyond two authors, else the authors joined by " & ". */
  function ApaAuthors(authors: seq<string>): (r: string)
    requires |authors| >= 1
    ensures |authors| > 2 ==> r == FirstAuthor(authors) + " et al."
    ensures |authors| == 1 ==> r == authors[0]
    ensures |authors| == 2 ==> r == authors[0] + " & " + authors[1]
  {
    if |authors| > 2 then FirstAuthor(authors) + " et al."
    else
      assert |authors| == 2 ==> authors[1..] == [authors[1]];
      Join(authors, " & ")
  }

  /** The BibTeX key: the lower-cased first word of the first author, then the year. */
  function BibKey(firstAuthor: string, year: string): (r: string)
    requires ' ' !in year
    ensures ' ' !in r
    ensures EndsWith(r, year)
    ensures |r| == |FirstField(firstAuthor, ' ')| + |year|
    ensures forall i :: 0 <= i < |FirstField(firstAuthor, ' ')| ==> r[i] == LowerChar(firstAuthor[i])
  {
    var w := FirstField(firstAuthor, ' ');
    var lw := ToLower(w);
    assert ' ' !in lw by {
      forall i | 0 <= i < |lw| ensures lw[i] != ' ' {
        assert w[i] != ' ';
      }
    }
    var r := lw + year;
    assert r[|r| - |year|..] == year;
    r
  }

  /** The APA year: the year between parentheses. */
  function YearPart(year: string): string {
    " (" + year + ")"
  }

  /** The APA line: author part, parenthesised year, title and journal. */
  function ApaLine(apaAuthors: string, year: string, title: string, journal: string): (r: string)
    ensures Spliced(r, apaAuthors + YearPart(year) + ". ", title, ". " + journal + ".")
  {
    var head := apaAuthors + YearPart(year) + ". ";
    var tail := ". " + journal + ".";
    Framed(head, title, tail);
    head + title + tail
  }

  /** The MLA title: quoted, with its full stop inside the quotes. */
  function QuotedTitle(title: string): string {
    "\"" + title + ".\" "
  }

  /** The MLA line: first author, quoted title, journal and year. */
  function MlaLine(first: string, title: string, journal: string, year: string): (r: string)
    ensures Spliced(r, first + ". " + QuotedTitle(title), journal, ", " + year + ".")
  {
    var head := first + ". " + QuotedTitle(title);
    var tail := ", " + year + ".";
    Framed(head, journal, tail);
    head + journal + tail
  }

  /** The BibTeX entry: an `@article` with the key, then title, raw author string, journal,
      year and PubMed id, one field per line. */
  function BibtexRecord(key: string, paper: Paper, year: string): (r: string)
    ensures StartsWith(r, BibtexOpen(key)) && EndsWith(r, BibtexClose(paper.id))
    ensures Spliced(r, BibtexOpen(key),
                    BibtexTitle(paper.title) + paper.authors + BibtexFields(paper.journal, year),
                    BibtexClose(paper.id))
  {
    var middle := BibtexTitle(paper.title) + paper.authors + BibtexFields(paper.journal, year);
    Framed(BibtexOpen(key), middle, BibtexClose(paper.id));
    BibtexOpen(key) + middle + BibtexClose(paper.id)
  }

  /** The first line of a BibTeX entry, holding its key. */
  function BibtexOpen(key: string): string {
    "@article{" + key + ",\n"
  }

  /** The title line of a BibTeX entry and the opening of its author field. */
  function BibtexTitle(title: string): string {
    "  title = {" + title + "},\n  author = {"
  }

  /** The close of the author field, then the journal and year lines. */
  function BibtexFields(journal: string, year: string): (r: string)
    ensures |r| > 0 && r[0] == '}'
  {
    "},\n  journal = {" + journal + "},\n  year = {" + year + "},\n"
  }

  /** The PubMed id line and the end of the entry. */
  function BibtexClose(id: string): string {
    "  pmid = {" + id + "}\n}"
  }

  lemma Framed(head: string, middle: string, tail: string)
    ensures Spliced(head + middle + tail, head, middle, tail)
  {
    SplicedExact(head + middle + tail, head, middle, tail);
  }

  /** `r` is `head`, then `middle`, then `tail`, and nothing else. */
  predicate Spliced(r: string, head: string, middle: string, tail: string) {
    && |r| == |head| + |middle| + |tail|
    && StartsWith(r, head)
    && ShowsAt(r, |head|, middle)
    && EndsWith(r, tail)
  }

  /** The three pieces and the length leave no character of the rendering open. */
  lemma SplicedExact(r: string, head: string, middle: string, tail: string)
    ensures Spliced(r, head, middle, tail) <==> r == head + middle + tail
  {
    var x := head + middle + tail;
    assert x[..|head|] == head;
    assert x[|head|..|head| + |middle|] == middle;
    assert x[|x| - |tail|..] == tail;
    if Spliced(r, head, middle, tail) {
      assert r == r[..|head|] + r[|head|..|head| + |middle|] + r[|r| - |tail|..];
    }
  }

  /** `formatCitation(paper, format)`: the APA rendering opens with the author part and the
      parenthesised year, the MLA one with the first author and closes with the year, and the
      BibTeX one opens the entry with its key and closes it with the PubMed id. */
  function FormatCitation(paper: Paper, format: CitationFormat): (r: string)
    ensures format == Apa ==>
              Spliced(r, ApaAuthors(AuthorList(paper.authors)) + YearPart(CitationYear(paper.pubdate)) + ". ",
                      paper.title, ". " + paper.journal + ".")
    ensures format == Mla ==>
              Spliced(r, FirstAuthor(AuthorList(paper.authors)) + ". " + QuotedTitle(paper.title),
                      paper.journal, ", " + CitationYear(paper.pubdate) + ".")
    ensures format == Bibtex ==>
              StartsWith(r, BibtexOpen(BibKey(FirstAuthor(AuthorList(paper.authors)), CitationYear(paper.pubdate))))
              && EndsWith(r, BibtexClose(paper.id))
    ensures format == Bibtex ==>
              Spliced(r, BibtexOpen(BibKey(FirstAuthor(AuthorList(paper.authors)), CitationYear(paper.pubdate))),
                      BibtexTitle(paper.title) + paper.authors + BibtexFields(paper.journal, CitationYear(paper.pubdate)),
                      BibtexClose(paper.id))
  {
    var authors := AuthorList(paper.authors);
    var first := FirstAuthor(authors);
    var year := CitationYear(paper.pubdate);
    match format
    case Apa => ApaLine(ApaAuthors(authors), year, paper.title, paper.journal)
    case Mla => MlaLine(first, paper.title, paper.journal, year)
    case Bibtex => BibtexRecord(BibKey(first, year), paper, year)
  }

  /** Every rendering shows the year: between parentheses right after the APA author part,
      at the end of the MLA line, and at the end of the BibTeX key. A corollary of the
      Spliced clauses of FormatCitation, stated on its own for readers. */
  lemma YearShown(paper: Paper)
    ensures ApaShowsYear(paper)
    ensures EndsWith(FormatCitation(paper, Mla), CitationYear(paper.pubdate) + ".")
    ensures EndsWith(BibKey(FirstAuthor(AuthorList(paper.authors)), CitationYear(paper.pubdate)),
                     CitationYear(paper.pubdate))
  {
    ApaYear(paper);
    MlaYear(paper);
  }

  /** The parenthesised year follows the APA author part. */
  predicate ApaShowsYear(paper: Paper) {
    ShowsAt(FormatCitation(paper, Apa), |ApaAuthors(AuthorList(paper.authors))|, YearPart(CitationYear(paper.pubdate)))
  }

  /** `part` occurs in `r` starting at position `at`. */
  predicate ShowsAt(r: string, at: nat, part: string) {
    at + |part| <= |r| && r[at..at + |part|] == part
  }

  lemma ApaYear(paper: Paper)
    ensures ApaShowsYear(paper)
  {
    var r := FormatCitation(paper, Apa);
    var a := ApaAuthors(AuthorList(paper.authors));
    var y := YearPart(CitationYear(paper.pubdate));
    assert StartsWith(r, a + y + ". ");
    InsideHead(r, a, y, ". ");
  }

  lemma MlaYear(paper: Paper)
    ensures EndsWith(FormatCitation(paper, Mla), CitationYear(paper.pubdate) + ".")
  {
    SuffixOfSuffix(FormatCitation(paper, Mla), ", ", CitationYear(paper.pubdate), ".");
  }

  lemma InsideHead(r: string, a: string, b: string, c: string)
    requires StartsWith(r, a + b + c)
    ensures ShowsAt(r, |a|, b)
  {
    assert r[|a|..|a| + |b|] == (a + b + c)[|a|..|a| + |b|];
  }

  lemma SuffixOfSuffix(r: string, x: string, y: string, z: string)
    requires EndsWith(r, x + y + z)
    ensures EndsWith(r, y + z)
  {
    assert r[|r| - |y + z|..] == (x + y + z)[|x|..];
  }

  lemma PrefixOfJoin(r: string, x: string, y: string)
    requires StartsWith(r, x + y)
    ensures StartsWith(r, x)
  {
    assert r[..|x|] == (x + y)[..|x|];
  }

  lemma PrefixOfPrefix(r: string, x: string, y: string, z: string)
    requires StartsWith(r, x + y + z)
    ensures StartsWith(r, x)
  {
    assert r[..|x|] == (x + y + z)[..|x|];
  }

  /** A paper from the search backend, whose author string joins its names with ", ", cites
      its first name under MLA and, beyond two names, under APA as well. */
  lemma BackendAuthorsCited(paper: Paper, names: seq<string>)
    requires |names| >= 1 && paper.authors == Join(names, ", ") && CleanNames(names)
    requires names[0] != ""
    ensures StartsWith(FormatCitation(paper, Mla), names[0] + ". ")
    ensures |names| > 2 ==> StartsWith(FormatCitation(paper, Apa), names[0] + " et al.")
  {
    AuthorListOfJoined(names);
    MlaCitesFirst(paper, names[0]);
    if |names| > 2 {
      ApaCitesFirst(paper, names[0]);
    }
  }

  lemma MlaCitesFirst(paper: Paper, first: string)
    requires FirstAuthor(AuthorList(paper.authors)) == first
    ensures StartsWith(FormatCitation(paper, Mla), first + ". ")
  {
    var r := FormatCitation(paper, Mla);
    assert StartsWith(r, first + ". " + QuotedTitle(paper.title));
    PrefixOfJoin(r, first + ". ", QuotedTitle(paper.title));
  }

  lemma ApaCitesFirst(paper: Paper, first: string)
    requires |AuthorList(paper.authors)| > 2 && FirstAuthor(AuthorList(paper.authors)) == first
    ensures StartsWith(FormatCitation(paper, Apa), first + " et al.")
  {
    var r := FormatCitation(paper, Apa);
    var a := ApaAuthors(AuthorList(paper.authors));
    var y := YearPart(CitationYear(paper.pubdate));
    assert a == first + " et al.";
    assert StartsWith(r, a + y + ". ");
    PrefixOfPrefix(r, a, y, ". ");
  }

  /** An empty author string renders as an empty APA author part, while MLA shows "Unknown". */
  lemma EmptyAuthors(paper: Paper)
    requires paper.authors == ""
    ensures StartsWith(FormatCitation(paper, Apa), " (")
    ensures StartsWith(FormatCitation(paper, Mla), UnknownAuthor + ". ")
  {
    assert Split("", ',') == [""];
    assert AuthorList("") == [""];
  }

  /** Names free of commas and of whitespace at either end, as a name list must be to
      survive joining and splitting. */
  predicate CleanNames(names: seq<string>) {
    forall i :: 0 <= i < |names| ==> ',' !in names[i] && Trimmed(names[i])
  }

  predicate Trimmed(name: string) {
    |name| > 0 ==> !IsJsSpace(name[0]) && !IsJsSpace(name[|name| - 1])
  }

  /** The author string the backend builds (all names joined by ", ") is split back into the
      same names, provided the names are comma-free and carry no surrounding whitespace. */
  lemma {:induction false} AuthorListOfJoined(names: seq<string>)
    requires |names| >= 1
    requires CleanNames(names)
    ensures AuthorList(Join(names, ", ")) == names
  {
    var padded := seq(|names|, i requires 0 <= i < |names| => if i == 0 then names[i] else " " + names[i]);
    assert FreeOf(padded, ',') by {
      forall i | 0 <= i < |padded| ensures ',' !in padded[i] {
        if i > 0 {
          assert forall k :: 1 <= k < |padded[i]| ==> padded[i][k] == names[i][k - 1];
        }
      }
    }
    JoinPadded(names, padded);
    SplitJoin(padded, ',');
    assert Split(Join(names, ", "), ',') == padded;
    forall i | 0 <= i < |names| ensures JsTrim(padded[i]) == names[i] {
      TrimPiece(names[i], padded[i], i == 0);
    }
  }

  /** A backend name, with or without the space the join put in front, trims back to itself. */
  lemma TrimPiece(name: string, piece: string, first: bool)
    requires Trimmed(name)
    requires piece == if first then name else " " + name
    ensures JsTrim(piece) == name
  {
    JsTrimIdentity(name);
    if !first {
      TrimLeadingSpace(name);
    }
  }

  lemma TrimLeadingSpace(s: string)
    requires |s| > 0 ==> !IsJsSpace(s[0]) && !IsJsSpace(s[|s| - 1])
    ensures JsTrim(" " + s) == s
  {
    var t := " " + s;
    assert t[1..] == s;
    if |s| > 0 {
      assert LeadingJsSpaces(t) == 1 + LeadingJsSpaces(t[1..]);
    }
  }

  lemma {:induction false} JoinPadded(names: seq<string>, padded: seq<string>)
    requires |names| >= 1 && |padded| == |names|
    requires padded[0] == names[0]
    requires forall i :: 1 <= i < |names| ==> padded[i] == " " + names[i]
    ensures Join(names, ", ") == Join(padded, ",")
    decreases |names|
  {
    if |names| > 1 {
      var tailPadded := [names[1]] + padded[2..];
      assert tailPadded[1..] == padded[2..];
      JoinPadded(names[1..], tailPadded);
      JoinConsChar(' ', tailPadded, ",");
      assert [[' '] + tailPadded[0]] + tailPadded[1..] == padded[1..];
    }
  }

  /** MLA shows only the first author, and so does APA beyond two authors: papers that differ
      only in later authors render identically. */
  lemma FirstAuthorOnly(p: Paper, q: Paper)
    requires p.title == q.title && p.journal == q.journal && p.pubdate == q.pubdate
    requires AuthorList(p.authors)[0] == AuthorList(q.authors)[0]
    ensures FormatCitation(p, Mla) == FormatCitation(q, Mla)
    ensures |AuthorList(p.authors)| > 2 && |AuthorList(q.authors)| > 2 ==>
              FormatCitation(p, Apa) == FormatCitation(q, Apa)
  {
  }

  /** The BibTeX rendering carries the raw author string and the paper id: papers with
      brace-free author strings that differ in either render differently. */
  lemma BibtexCarriesIdAndAuthors(p: Paper, q: Paper)
    requires p.title == q.title && p.journal == q.journal && p.pubdate == q.pubdate
    requires AuthorList(p.authors)[0] == AuthorList(q.authors)[0]
    requires '}' !in p.authors && '}' !in q.authors
    requires p.authors != q.authors || p.id != q.id
    ensures FormatCitation(p, Bibtex) != FormatCitation(q, Bibtex)
  {
    var year := CitationYear(p.pubdate);
    BibtexRecordDistinct(BibKey(FirstAuthor(AuthorList(p.authors)), year), p, q, year);
  }

  lemma BibtexRecordDistinct(key: string, p: Paper, q: Paper, year: string)
    requires p.title == q.title && p.journal == q.journal
    requires '}' !in p.authors && '}' !in q.authors
    requires p.authors != q.authors || p.id != q.id
    ensures BibtexRecord(key, p, year) != BibtexRecord(key, q, year)
  {
    var pre, mid := BibtexOpen(key) + BibtexTitle(p.title), BibtexFields(p.journal, year) + "  pmid = {";
    Regroup(BibtexOpen(key), BibtexTitle(p.title), p.authors, BibtexFields(p.journal, year), "  pmid = {", p.id, "}\n}");
    Regroup(BibtexOpen(key), BibtexTitle(p.title), q.authors, BibtexFields(p.journal, year), "  pmid = {", q.id, "}\n}");
    SplicedDistinct(pre, p.authors, q.authors, mid, p.id, q.id, "}\n}");
  }

  /** Proof step for the two-paper comparisons: re-associates the pieces of a spliced rendering. */
  lemma Regroup(h: string, a: string, x: string, b: string, c: string, y: string, t: string)
    ensures h + (a + x + b) + (c + y + t) == (h + a) + x + (b + c) + y + t
  {
  }

  /** Two fields spliced into a fixed frame are recovered from the result when the first
      field cannot contain the character that follows it. */
  lemma SplicedDistinct(pre: string, x1: string, x2: string, mid: string, y1: string, y2: string, post: string)
    requires |mid| > 0 && mid[0] !in x1 && mid[0] !in x2
    requires x1 != x2 || y1 != y2
    ensures pre + x1 + mid + y1 + post != pre + x2 + mid + y2 + post
  {
    var a := pre + x1 + mid + y1 + post;
    var b := pre + x2 + mid + y2 + post;
    if |x1| < |x2| {
      assert a[|pre| + |x1|] != b[|pre| + |x1|];
    } else if |x2| < |x1| {
      assert a[|pre| + |x2|] != b[|pre| + |x2|];
    } else if x1 != x2 {
      var j :| 0 <= j < |x1| && x1[j] != x2[j];
      assert a[|pre| + j] != b[|pre| + j];
    } else if |y1| != |y2| {
      assert |a| != |b|;
    } else {
      var j :| 0 <= j < |y1| && y1[j] != y2[j];
      var k := |pre| + |x1| + |mid| + j;
      assert a[k] != b[k];
    }
  }
}
