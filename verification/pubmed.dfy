/**
 * The pure part of the backend's PubMed search proxy: turning the eSearch id list, the
 * eSummary records and the abstracts and MeSH terms scanned from eFetch into the list
 * of paper records the voice assistant reads from.
 */
module PubMed {
  import opened Wrappers
  import opened Strings
  import opened Papers

  /** One entry of an eSummary `authors` list; `name` is None when the entry has no name. */
  datatype AuthorEntry = AuthorEntry(name: Option<string>)

  /** One eSummary record. A missing key is None; for volume, issue and pages a missing key
      and an empty value both read as "", so they are plain strings. A missing `authors`
      key reads as the empty list. */
  datatype Summary = Summary(
    title: Option<string>,
    authors: seq<AuthorEntry>,
    source: Option<string>,
    pubdate: Option<string>,
    volume: string,
    issue: string,
    pages: string
  )

  /** The exception that aborts the whole request: `pubdate.split()[0]` on a publication
      date made only of whitespace raises IndexError. */
  datatype ProxyError = PubdateIndexError(uid: string)

  const NoTitle := "No Title"
  const UnknownJournal := "Unknown"
  const NoYear := "N/A"
  const NoAbstract := "Abstract not available."
  const LinkPrefix := "https://pubmed.ncbi.nlm.nih.gov/"
  const EtAl := " et al."

  /** The names of the author entries that have one, in order. */
  function AuthorNames(entries: seq<AuthorEntry>): (names: seq<string>)
    ensures |names| <= |entries|
    ensures forall i :: 0 <= i < |entries| && entries[i].name.Some? ==> entries[i].name.value in names
    ensures forall n :: n in names ==> AuthorEntry(Some(n)) in entries
    ensures (forall i :: 0 <= i < |entries| ==> entries[i].name.Some?) ==> |names| == |entries|
  {
    if |entries| == 0 then []
    else
      var rest := AuthorNames(entries[1..]);
      assert forall e :: e in entries[1..] ==> e in entries;
      match entries[0].name
      case Some(n) => [n] + rest
      case None => rest
  }

  /** Taking the names is a filter in entry order: the names of a concatenation are those
      of each part, in turn. */
  lemma {:induction false} AuthorNamesAppend(a: seq<AuthorEntry>, b: seq<AuthorEntry>)
    ensures AuthorNames(a + b) == AuthorNames(a) + AuthorNames(b)
    decreases |a|
  {
    if |a| == 0 {
      assert a + b == b;
    } else {
      assert (a + b)[1..] == a[1..] + b;
      AuthorNamesAppend(a[1..], b);
    }
  }

  /** A single entry contributes its name exactly when it has one. */
  lemma AuthorNamesOne(e: AuthorEntry)
    ensures AuthorNames([e]) == if e.name.Some? then [e.name.value] else []
  {
    assert [e][1..] == [];
  }

  /** The author part of the citation: at most three names, then " et al." when more exist. */
  function AuthorSegment(names: seq<string>): (r: string)
    ensures |names| <= 3 ==> r == Join(names, ", ")
    ensures |names| > 3 ==> StartsWith(r, Join(names[..3], ", ")) && EndsWith(r, EtAl)
    ensures |names| > 3 ==> |r| == |Join(names[..3], ", ")| + |EtAl|
  {
    var shown := if |names| <= 3 then names else names[..3];
    assert |names| <= 3 ==> shown == names;
    Join(shown, ", ") + (if |names| > 3 then EtAl else "")
  }

  /** The year shown in the citation: the first word of a non-empty pubdate, "N/A" for a
      missing or empty one, and None where Python raises IndexError. */
  function Year(pubdate: Option<string>): (r: Option<string>)
    ensures (pubdate.None? || pubdate.value == "") ==> r == Some(NoYear)
    ensures r.None? <==> pubdate.Some? && pubdate.value != ""
                          && forall i :: 0 <= i < |pubdate.value| ==> IsPySpace(pubdate.value[i])
    ensures r.Some? && pubdate.Some? && pubdate.value != "" ==> r == PyFirstWord(pubdate.value)
  {
    match pubdate
    case None => Some(NoYear)
    case Some(p) => if p == "" then Some(NoYear) else PyFirstWord(p)
  }

  /** A record whose publication date aborts the request. */
  predicate Aborts(item: Summary) {
    Year(item.pubdate).None?
  }

  /** The optional `year;volume(issue):pages.` part of the citation. */
  function VolumeSegment(year: string, volume: string, issue: string, pages: string): (r: string)
    ensures r == "" <==> volume == ""
    ensures volume != "" ==>
              |r| == |year| + |volume| + 2
                     + (if issue == "" then 0 else |issue| + 2)
                     + (if pages == "" then 0 else |pages| + 1)
    ensures volume != "" ==> StartsWith(r, year + ";" + volume) && EndsWith(r, ".")
    ensures volume != "" && issue != "" ==> StartsWith(r[|year| + 1 + |volume|..], "(" + issue + ")")
    ensures volume != "" && pages != "" ==> EndsWith(r, ":" + pages + ".")
    ensures volume != "" && issue != "" && pages == "" ==> EndsWith(r, "(" + issue + ").")
    ensures volume != "" && issue == "" && pages == "" ==> r == year + ";" + volume + "."
  {
    if volume == "" then ""
    else
      var issuePart := if issue == "" then "" else "(" + issue + ")";
      var pagesPart := if pages == "" then "" else ":" + pages;
      var r := year + ";" + volume + issuePart + pagesPart + ".";
      assert r[..|year + ";" + volume|] == year + ";" + volume;
      assert r[|year| + 1 + |volume|..] == issuePart + pagesPart + ".";
      assert issue != "" ==> (issuePart + pagesPart + ".")[..|issuePart|] == issuePart;
      r
  }

  /** The full citation: `Authors. Title Journal. year;volume(issue):pages.` with the parts
      separated by single spaces and the volume part dropped when there is no volume. */
  function Citation(authorSeg: string, title: string, journal: string, volumeSeg: string): (r: string)
    ensures StartsWith(r, authorSeg + ". " + title + " " + journal + ".")
    ensures volumeSeg == "" ==> r == authorSeg + ". " + title + " " + journal + "."
    ensures volumeSeg != "" ==> EndsWith(r, " " + volumeSeg)
    ensures |r| == |authorSeg + ". " + title + " " + journal + "."| + (if volumeSeg == "" then 0 else |volumeSeg| + 1)
  {
    var first := [authorSeg + ".", title, journal + "."];
    var head := authorSeg + ". " + title + " " + journal + ".";
    HeadJoin(authorSeg, title, journal);
    if volumeSeg == "" then Join(first, " ")
    else
      JoinSnoc(first, volumeSeg, " ");
      var r := Join(first + [volumeSeg], " ");
      assert r == head + (" " + volumeSeg);
      assert r[..|head|] == head;
      assert r[|r| - |volumeSeg| - 1..] == " " + volumeSeg;
      r
  }

  /** The three fixed parts joined by single spaces. */
  lemma HeadJoin(authorSeg: string, title: string, journal: string)
    ensures Join([authorSeg + ".", title, journal + "."], " ") == authorSeg + ". " + title + " " + journal + "."
  {
    var parts := [authorSeg + ".", title, journal + "."];
    assert parts[1..] == [title, journal + "."];
    assert parts[1..][1..] == [journal + "."];
  }

  /** The record for one id present in the summary, or the IndexError its pubdate raises. */
  function BuildPaper(uid: string, item: Summary, abstracts: map<string, string>,
                      mesh: map<string, seq<string>>): (r: Result<Paper, ProxyError>)
    ensures r.Failure? <==> Aborts(item)
    ensures r.Failure? ==> r.error == PubdateIndexError(uid)
  {
    match Year(item.pubdate)
    case None => Failure(PubdateIndexError(uid))
    case Some(year) =>
      var names := AuthorNames(item.authors);
      var title := item.title.GetOr(NoTitle);
      var journal := item.source.GetOr(UnknownJournal);
      Success(Paper(
        id := uid,
        title := title,
        authors := Join(names, ", "),
        journal := journal,
        pubdate := Some(item.pubdate.GetOr(NoYear)),
        link := LinkPrefix + uid + "/",
        abstractText := if uid in abstracts then abstracts[uid] else NoAbstract,
        meshTerms := if uid in mesh then mesh[uid] else [],
        citation := Citation(AuthorSegment(names), title, journal,
                             VolumeSegment(year, item.volume, item.issue, item.pages))))
  }

  /** The fields of a built record: the id and link of the request, the summary's values
      or their fixed defaults, all author names joined, and the citation's shape. */
  lemma BuildPaperFields(uid: string, item: Summary, abstracts: map<string, string>,
                         mesh: map<string, seq<string>>)
    requires Year(item.pubdate).Some?
    ensures BuildPaper(uid, item, abstracts, mesh).Success?
    ensures
      var p := BuildPaper(uid, item, abstracts, mesh).value;
      var head := AuthorSegment(AuthorNames(item.authors)) + ". " + p.title + " " + p.journal + ".";
      && p.id == uid
      && p.title == item.title.GetOr(NoTitle)
      && p.authors == Join(AuthorNames(item.authors), ", ")
      && p.journal == item.source.GetOr(UnknownJournal)
      && p.pubdate == Some(item.pubdate.GetOr(NoYear))
      && p.link == LinkPrefix + uid + "/"
      && (uid in abstracts ==> p.abstractText == abstracts[uid])
      && (uid !in abstracts ==> p.abstractText == NoAbstract)
      && (uid in mesh ==> p.meshTerms == mesh[uid])
      && (uid !in mesh ==> p.meshTerms == [])
      && StartsWith(p.citation, head)
      && (item.volume == "" <==> p.citation == head)
      && (item.volume != "" ==>
            EndsWith(p.citation, " " + VolumeSegment(Year(item.pubdate).value, item.volume, item.issue, item.pages)))
      && (item.volume != "" ==>
            |p.citation| == |head| + 1 + |VolumeSegment(Year(item.pubdate).value, item.volume, item.issue, item.pages)|)
  {
    var vs := VolumeSegment(Year(item.pubdate).value, item.volume, item.issue, item.pages);
  }

  /** The ids of the search that have a summary record, in search order. */
  function Kept(ids: seq<string>, summaries: map<string, Summary>): (r: seq<string>)
    ensures |r| <= |ids|
    ensures forall i :: 0 <= i < |r| ==> r[i] in summaries && r[i] in ids
    ensures forall id :: id in ids && id in summaries ==> id in r
  {
    if |ids| == 0 then []
    else
      var rest := Kept(ids[1..], summaries);
      assert forall x :: x in ids[1..] ==> x in ids;
      assert forall x :: x in ids ==> x == ids[0] || x in ids[1..];
      if ids[0] in summaries then [ids[0]] + rest else rest
  }

  /** Keeping is a filter in search order: the ids kept from a concatenation are those kept
      from each part, in turn. */
  lemma {:induction false} KeptAppend(a: seq<string>, b: seq<string>, summaries: map<string, Summary>)
    ensures Kept(a + b, summaries) == Kept(a, summaries) + Kept(b, summaries)
    decreases |a|
  {
    if |a| == 0 {
      assert a + b == b;
    } else {
      assert (a + b)[1..] == a[1..] + b;
      KeptAppend(a[1..], b, summaries);
    }
  }

  /** A single id is kept exactly when it has a summary record. */
  lemma KeptOne(id: string, summaries: map<string, Summary>)
    ensures Kept([id], summaries) == if id in summaries then [id] else []
  {
    assert [id][1..] == [];
  }

  /** The response of the search proxy: one record per id of the search that has a summary,
      in the order of the id list, or the error of the first record that aborts the request. */
  function FormatPapers(ids: seq<string>, summaries: map<string, Summary>,
                        abstracts: map<string, string>, mesh: map<string, seq<string>>)
    : (r: Result<seq<Paper>, ProxyError>)
    ensures ids == [] ==> r == Success([])
    ensures r.Success? ==> |r.value| == |Kept(ids, summaries)| <= |ids|
    ensures r.Success? ==> forall k :: 0 <= k < |r.value| ==>
              BuildPaper(Kept(ids, summaries)[k], summaries[Kept(ids, summaries)[k]], abstracts, mesh)
                == Success(r.value[k])
  {
    if ids == [] then Success([])
    else Collect(BuildAll(Kept(ids, summaries), summaries, abstracts, mesh))
  }

  /** The record, or the abort, for each kept id in turn. */
  function BuildAll(kept: seq<string>, summaries: map<string, Summary>,
                    abstracts: map<string, string>, mesh: map<string, seq<string>>)
    : (r: seq<Result<Paper, ProxyError>>)
    requires forall i :: 0 <= i < |kept| ==> kept[i] in summaries
    ensures |r| == |kept|
    ensures forall k :: 0 <= k < |kept| ==> r[k] == BuildPaper(kept[k], summaries[kept[k]], abstracts, mesh)
    ensures forall k :: 0 <= k < |kept| ==> (r[k].Failure? <==> Aborts(summaries[kept[k]]))
    ensures forall k :: 0 <= k < |kept| && r[k].Failure? ==> r[k].error == PubdateIndexError(kept[k])
  {
    seq(|kept|, k requires 0 <= k < |kept| => BuildPaper(kept[k], summaries[kept[k]], abstracts, mesh))
  }

  /** Any kept record whose publication date aborts makes the whole request fail. */
  lemma FormatPapersAbortFails(ids: seq<string>, summaries: map<string, Summary>,
                               abstracts: map<string, string>, mesh: map<string, seq<string>>, k: nat)
    requires k < |Kept(ids, summaries)| && Aborts(summaries[Kept(ids, summaries)[k]])
    ensures FormatPapers(ids, summaries, abstracts, mesh).Failure?
  {
    var kept := Kept(ids, summaries);
    var built := BuildAll(kept, summaries, abstracts, mesh);
    assert ids != [];
    assert FormatPapers(ids, summaries, abstracts, mesh) == Collect(built);
    assert built[k].Failure?;
  }

  /** A failing request carries the id of the first kept record that aborts it. */
  lemma FormatPapersFirstError(ids: seq<string>, summaries: map<string, Summary>,
                               abstracts: map<string, string>, mesh: map<string, seq<string>>)
    requires FormatPapers(ids, summaries, abstracts, mesh).Failure?
    ensures exists k :: 0 <= k < |Kept(ids, summaries)|
              && Aborts(summaries[Kept(ids, summaries)[k]])
              && FormatPapers(ids, summaries, abstracts, mesh).error == PubdateIndexError(Kept(ids, summaries)[k])
              && forall j :: 0 <= j < k ==> !Aborts(summaries[Kept(ids, summaries)[j]])
  {
    var kept := Kept(ids, summaries);
    var built := BuildAll(kept, summaries, abstracts, mesh);
    assert FormatPapers(ids, summaries, abstracts, mesh) == Collect(built);
    FirstAbort(kept, summaries, built, Collect(built));
  }

  lemma FirstAbort(kept: seq<string>, summaries: map<string, Summary>,
                   built: seq<Result<Paper, ProxyError>>, r: Result<seq<Paper>, ProxyError>)
    requires |built| == |kept| && forall i :: 0 <= i < |kept| ==> kept[i] in summaries
    requires forall k :: 0 <= k < |kept| ==> (built[k].Failure? <==> Aborts(summaries[kept[k]]))
    requires forall k :: 0 <= k < |kept| && built[k].Failure? ==> built[k].error == PubdateIndexError(kept[k])
    requires r.Failure?
    requires exists k :: 0 <= k < |built| && built[k].Failure? && r.error == built[k].error
                         && forall j :: 0 <= j < k ==> built[j].Success?
    ensures exists k :: 0 <= k < |kept| && Aborts(summaries[kept[k]]) && r.error == PubdateIndexError(kept[k])
                        && forall j :: 0 <= j < k ==> !Aborts(summaries[kept[j]])
  {
    var k :| 0 <= k < |built| && built[k].Failure? && r.error == built[k].error
             && forall j :: 0 <= j < k ==> built[j].Success?;
    assert forall j :: 0 <= j < k ==> !Aborts(summaries[kept[j]]);
  }

  /** The formatting loop: the values of all results in order, or the error of the first
      failing one, which aborts the loop. */
  function Collect<T, E(==)>(rs: seq<Result<T, E>>): (r: Result<seq<T>, E>)
    ensures r.Success? <==> forall k :: 0 <= k < |rs| ==> rs[k].Success?
    ensures r.Success? ==> |r.value| == |rs| && forall k :: 0 <= k < |rs| ==> rs[k] == Success(r.value[k])
    ensures r.Failure? ==> (exists k :: 0 <= k < |rs| && rs[k].Failure? && r.error == rs[k].error
                                        && forall j :: 0 <= j < k ==> rs[j].Success?)
  {
    if |rs| == 0 then Success([])
    else if rs[0].Failure? then
      Failure(rs[0].error)
    else
      var rest := Collect(rs[1..]);
      assert forall k :: 0 < k < |rs| ==> rs[k] == rs[1..][k - 1];
      if rest.Failure? then
        var k :| 0 <= k < |rs[1..]| && rs[1..][k].Failure? && rest.error == rs[1..][k].error
                 && forall j :: 0 <= j < k ==> rs[1..][j].Success?;
        assert forall j :: 0 <= j < k + 1 ==> rs[j].Success?;
        Failure(rest.error)
      else
        Success([rs[0].value] + rest.value)
  }
}
