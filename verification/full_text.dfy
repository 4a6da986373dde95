/**
 * The pure part of the backend's full-text tool: deciding whether an article is in
 * PubMed Central, cleaning and filtering the scanned sections, falling back to the
 * abstract, and laying out the readable `full_text`.
 */
module FullText {
  import opened Wrappers
  import opened Strings

  /** One record of the PMID-to-PMCID converter's answer. */
  datatype ConversionRecord = ConversionRecord(pmcid: Option<string>)

  /** The sections of an article as a Python dict: keys are unique and keep the position
      of their first insertion. */
  type Sections = seq<(string, string)>

  datatype FullTextResult =
    | NotInPmc(pmid: string, error: string, suggestion: string)
    | Found(pmid: string, pmcid: string, title: string, sections: Sections,
            fullText: string, pmcLink: string)

  const NotOpenAccess := "This article is not available in PubMed Central (not open access)."
  const AbstractOnly := "Only open-access articles have full text available. The abstract should still be readable."
  const TitleNotFound := "Title not found"
  const AbstractKey := "Abstract"
  const PmcLinkPrefix := "https://www.ncbi.nlm.nih.gov/pmc/articles/"
  /** A section is kept only when its cleaned text is longer than this. */
  const MinSectionLength := 100
  /** A kept section is cut to at most this many characters. */
  const MaxSectionLength := 3000

  /** Section and abstract text: tags become spaces, whitespace runs one space, then stripped. */
  function CleanText(raw: string): (r: string)
    ensures PyStripped(r)
    ensures PlainSpaces(r)
    ensures SingleSpaced(r)
  {
    var c := CollapseSpaces(StripTags(raw, " "));
    CollapseSingleSpaced(StripTags(raw, " "));
    var r := PyStrip(c);
    SliceKeepsSpacing(c, LeadingPySpaces(c), r);
    r
  }

  /** A slice of a single-spaced text whose only whitespace is ' ' is again such a text. */
  lemma SliceKeepsSpacing(c: string, a: nat, r: string)
    requires a + |r| <= |c| && r == c[a..a + |r|]
    requires PlainSpaces(c) && SingleSpaced(c)
    ensures PlainSpaces(r) && SingleSpaced(r)
  {
    assert forall i :: 0 <= i < |r| ==> r[i] == c[a + i];
  }

  /** Cleaning keeps exactly the words of the text once its tags have become spaces, one
      space between each two: `re.sub(r'\s+', ' ', s).strip()` is `" ".join(s.split())`. */
  lemma CleanTextWords(raw: string)
    ensures CleanText(raw) == Join(Words(StripTags(raw, " ")), " ")
  {
    var t := StripTags(raw, " ");
    var lead, trail := CollapseShape(t);
    JoinWordsStripped(Words(t));
    StripPadded(lead, Join(Words(t), " "), trail);
  }

  /** The article title: tags removed outright, then stripped; a fixed text when absent. */
  function CleanTitle(raw: Option<string>): (r: string)
    ensures raw.None? ==> r == TitleNotFound
    ensures raw.Some? ==> NoTag(r)
    ensures raw.Some? && NoTag(raw.value) ==> r == PyStrip(raw.value)
  {
    match raw
    case None => TitleNotFound
    case Some(t) =>
      var c := StripTags(t, "");
      var r := PyStrip(c);
      NoTagSlice(c, LeadingPySpaces(c), r);
      r
  }

  function Keys(d: Sections): (ks: seq<string>)
    ensures |ks| == |d|
    ensures forall i :: 0 <= i < |d| ==> ks[i] == d[i].0
  {
    seq(|d|, i requires 0 <= i < |d| => d[i].0)
  }

  predicate UniqueKeys(d: Sections) {
    forall i, j :: 0 <= i < j < |d| ==> d[i].0 != d[j].0
  }

  /** `d[k] = v` on a Python dict: an existing key keeps its place and takes the new value,
      a new key goes to the end. */
  function Put(d: Sections, k: string, v: string): (r: Sections)
    requires UniqueKeys(d)
    ensures Assigned(d, k, v, r)
    ensures k in Keys(d) ==> Keys(r) == Keys(d)
    ensures k !in Keys(d) ==> Keys(r) == Keys(d) + [k]
  {
    match IndexOfKey(d, k)
    case Some(i) =>
      PutExisting(d, k, v, i);
      d[i := (k, v)]
    case None =>
      PutNew(d, k, v);
      d + [(k, v)]
  }

  /** What `d[k] = v` promises: keys stay unique, `k` now holds `v`, every other key's value
      is unchanged, and every entry is the new one or an old one. */
  ghost predicate Assigned(d: Sections, k: string, v: string, r: Sections) {
    && UniqueKeys(r)
    && k in Keys(r) && Lookup(r, k) == Some(v)
    && (forall k' :: k' != k ==> Lookup(r, k') == Lookup(d, k'))
    && (forall i :: 0 <= i < |r| ==> r[i] == (k, v) || r[i] in d)
  }

  lemma PutExisting(d: Sections, k: string, v: string, i: nat)
    requires UniqueKeys(d) && i < |d| && d[i].0 == k
    ensures Assigned(d, k, v, d[i := (k, v)]) && Keys(d[i := (k, v)]) == Keys(d)
  {
    var r := d[i := (k, v)];
    assert forall j :: 0 <= j < |r| && j != i ==> r[j] == d[j];
    assert Keys(r) == Keys(d);
    LookupAt(r, i);
    forall k' | k' != k ensures Lookup(r, k') == Lookup(d, k') {
      LookupSame(d, r, k');
    }
  }

  lemma PutNew(d: Sections, k: string, v: string)
    requires UniqueKeys(d) && k !in Keys(d)
    ensures Assigned(d, k, v, d + [(k, v)]) && Keys(d + [(k, v)]) == Keys(d) + [k]
  {
    var r := d + [(k, v)];
    assert Keys(r) == Keys(d) + [k];
    LookupAt(r, |d|);
    forall k' | k' != k ensures Lookup(r, k') == Lookup(d, k') {
      LookupSame(d, r, k');
    }
  }

  function IndexOfKey(d: Sections, k: string): (r: Option<nat>)
    ensures r.Some? ==> r.value < |d| && d[r.value].0 == k
    ensures r.None? <==> k !in Keys(d)
  {
    if |d| == 0 then None
    else if d[|d| - 1].0 == k then Some(|d| - 1)
    else
      var r := IndexOfKey(d[..|d| - 1], k);
      assert Keys(d) == Keys(d[..|d| - 1]) + [d[|d| - 1].0];
      r
  }

  /** `d.get(k)` on a Python dict. */
  function Lookup(d: Sections, k: string): (r: Option<string>)
    ensures r.Some? <==> k in Keys(d)
  {
    if |d| == 0 then None
    else if d[|d| - 1].0 == k then Some(d[|d| - 1].1)
    else
      assert Keys(d) == Keys(d[..|d| - 1]) + [d[|d| - 1].0];
      Lookup(d[..|d| - 1], k)
  }

  lemma {:induction false} LookupAt(d: Sections, i: nat)
    requires UniqueKeys(d) && i < |d|
    ensures Lookup(d, d[i].0) == Some(d[i].1)
    decreases |d|
  {
    if i < |d| - 1 {
      LookupAt(d[..|d| - 1], i);
    }
  }

  lemma {:induction false} LookupSame(d: Sections, r: Sections, k: string)
    requires |d| <= |r|
    requires forall i :: 0 <= i < |d| && d[i].0 == k ==> r[i] == d[i]
    requires forall i :: 0 <= i < |d| && d[i].0 != k ==> r[i].0 != k
    requires forall i :: |d| <= i < |r| ==> r[i].0 != k
    ensures Lookup(r, k) == Lookup(d, k)
    decreases |r|
  {
    if |r| > |d| {
      LookupSame(d, r[..|r| - 1], k);
    } else if |d| > 0 {
      LookupSame(d[..|d| - 1], r[..|r| - 1], k);
    }
  }

  /** The cleaned and cut text of a raw section, when it is long enough to keep. */
  function KeptContent(raw: string): (r: Option<string>)
    ensures r.Some? <==> |CleanText(raw)| > MinSectionLength
    ensures r.Some? ==> MinSectionLength < |r.value| <= MaxSectionLength
    ensures r.Some? ==> StartsWith(CleanText(raw), r.value)
    ensures r.Some? && |CleanText(raw)| <= MaxSectionLength ==> r.value == CleanText(raw)
    ensures r.Some? && |CleanText(raw)| > MaxSectionLength ==> |r.value| == MaxSectionLength
  {
    var c := CleanText(raw);
    if |c| > MinSectionLength then Some(if |c| <= MaxSectionLength then c else c[..MaxSectionLength])
    else None
  }

  /** The section loop: every long-enough section goes into the dict under its stripped title. */
  function CollectSections(pairs: seq<(string, string)>): (d: Sections)
    ensures UniqueKeys(d)
    ensures forall i :: 0 <= i < |d| ==> MinSectionLength < |d[i].1| <= MaxSectionLength
    decreases |pairs|
  {
    if |pairs| == 0 then []
    else
      var d := CollectSections(pairs[..|pairs| - 1]);
      var (title, content) := pairs[|pairs| - 1];
      match KeptContent(content)
      case Some(c) =>
        var r := Put(d, PyStrip(title), c);
        PutValues(d, PyStrip(title), c);
        r
      case None => d
  }

  /** No raw section is long enough to keep. */
  predicate NoneKept(pairs: seq<(string, string)>) {
    forall i :: 0 <= i < |pairs| ==> KeptContent(pairs[i].1).None?
  }

  /** The dict is empty exactly when no raw section was long enough: that is when the abstract
      fallback applies. */
  lemma {:induction false} CollectSectionsEmpty(pairs: seq<(string, string)>)
    ensures CollectSections(pairs) == [] <==> NoneKept(pairs)
    decreases |pairs|
  {
    if |pairs| > 0 {
      var init, last := pairs[..|pairs| - 1], pairs[|pairs| - 1];
      assert pairs == init + [last];
      CollectSectionsEmpty(init);
      NoneKeptSnoc(init, last);
      if KeptContent(last.1).Some? {
        var r := Put(CollectSections(init), PyStrip(last.0), KeptContent(last.1).value);
        assert PyStrip(last.0) in Keys(r);
      }
    }
  }

  lemma NoneKeptSnoc(init: seq<(string, string)>, last: (string, string))
    ensures NoneKept(init + [last]) <==> NoneKept(init) && KeptContent(last.1).None?
  {
    var pairs := init + [last];
    assert forall i :: 0 <= i < |init| ==> pairs[i] == init[i];
    assert pairs[|init|] == last;
  }

  lemma PutValues(d: Sections, k: string, v: string)
    requires UniqueKeys(d)
    requires MinSectionLength < |v| <= MaxSectionLength
    requires forall i :: 0 <= i < |d| ==> MinSectionLength < |d[i].1| <= MaxSectionLength
    ensures forall i :: 0 <= i < |Put(d, k, v)| ==> MinSectionLength < |Put(d, k, v)[i].1| <= MaxSectionLength
  {
    var r := Put(d, k, v);
    forall i | 0 <= i < |r| ensures MinSectionLength < |r[i].1| <= MaxSectionLength {
      if r[i] != (k, v) {
        var j :| 0 <= j < |d| && d[j] == r[i];
      }
    }
  }

  /** The reference reading of the loop: the value under `key` is that of the LAST raw section
      whose stripped title is `key` and whose content is long enough. */
  function LastKept(pairs: seq<(string, string)>, key: string): (r: Option<string>)
    decreases |pairs|
  {
    if |pairs| == 0 then None
    else
      var (title, content) := pairs[|pairs| - 1];
      if PyStrip(title) == key && KeptContent(content).Some? then KeptContent(content)
      else LastKept(pairs[..|pairs| - 1], key)
  }

  /** Looking a title up in the collected dict agrees with the last-writer reading. */
  lemma {:induction false} CollectSectionsLookup(pairs: seq<(string, string)>, key: string)
    ensures Lookup(CollectSections(pairs), key) == LastKept(pairs, key)
    decreases |pairs|
  {
    if |pairs| > 0 {
      CollectSectionsLookup(pairs[..|pairs| - 1], key);
    }
  }

  /** The reference reading of the dict's key order: the stripped titles of the long-enough
      sections, each at its first appearance, later repeats skipped. */
  function KeptTitles(pairs: seq<(string, string)>): seq<string>
    decreases |pairs|
  {
    if |pairs| == 0 then []
    else
      var init := KeptTitles(pairs[..|pairs| - 1]);
      var (title, content) := pairs[|pairs| - 1];
      if KeptContent(content).Some? && PyStrip(title) !in init then init + [PyStrip(title)] else init
  }

  /** The dict's keys are in first-insertion order: a title keeps the place of its first
      long-enough section, however often it is overwritten later. */
  lemma {:induction false} CollectSectionsKeys(pairs: seq<(string, string)>)
    ensures Keys(CollectSections(pairs)) == KeptTitles(pairs)
    decreases |pairs|
  {
    if |pairs| > 0 {
      CollectSectionsKeys(pairs[..|pairs| - 1]);
    }
  }

  /** The dict after the abstract fallback: the abstract is added only when no section survived. */
  function WithAbstract(d: Sections, abstractRaw: Option<string>): (r: Sections)
    ensures d != [] ==> r == d
    ensures d == [] && abstractRaw.None? ==> r == []
    ensures d == [] && abstractRaw.Some? ==> r == [(AbstractKey, CleanText(abstractRaw.value))]
  {
    if d == [] && abstractRaw.Some? then [(AbstractKey, CleanText(abstractRaw.value))] else d
  }

  /** One section's contribution to `full_text`, before the joining newline. */
  function Block(name: string, content: string): string {
    "\n" + ToUpper(name) + ":\n" + content
  }

  function Blocks(d: Sections): (r: seq<string>)
    ensures |r| == |d|
    ensures forall i :: 0 <= i < |d| ==> r[i] == Block(d[i].0, d[i].1)
  {
    seq(|d|, i requires 0 <= i < |d| => Block(d[i].0, d[i].1))
  }

  /** The readable text: the title line, then each section, joined by newlines. */
  function Layout(title: string, d: Sections): string {
    Join(["TITLE: " + title + "\n"] + Blocks(d), "\n")
  }

  /** The reference reading of the layout: the title line followed by, for each section in
      dict order, a blank line, the upper-cased name and a colon, a newline and the content. */
  function Rendered(d: Sections): string
    decreases |d|
  {
    if |d| == 0 then "" else Rendered(d[..|d| - 1]) + "\n\n" + ToUpper(d[|d| - 1].0) + ":\n" + d[|d| - 1].1
  }

  lemma {:induction false} LayoutRendered(title: string, d: Sections)
    ensures Layout(title, d) == "TITLE: " + title + "\n" + Rendered(d)
    decreases |d|
  {
    var head := "TITLE: " + title + "\n";
    if |d| > 0 {
      var init, name, content := d[..|d| - 1], d[|d| - 1].0, d[|d| - 1].1;
      var block := Block(name, content);
      BlocksSnoc(head, d);
      JoinSnoc([head] + Blocks(init), block, "\n");
      LayoutRendered(title, init);
      AppendBlock(head, Rendered(init), ToUpper(name), content);
    } else {
      assert [head] + Blocks(d) == [head];
    }
  }

  lemma BlocksSnoc(head: string, d: Sections)
    requires |d| > 0
    ensures [head] + Blocks(d) == ([head] + Blocks(d[..|d| - 1])) + [Block(d[|d| - 1].0, d[|d| - 1].1)]
  {
  }

  lemma AppendBlock(x: string, y: string, upper: string, content: string)
    ensures (x + y) + "\n" + ("\n" + upper + ":\n" + content) == x + (y + "\n\n" + upper + ":\n" + content)
  {
  }

  /** The full-text tool's answer for already-fetched inputs. */
  function GetFullText(pmid: string, records: seq<ConversionRecord>, titleRaw: Option<string>,
                       sectionsRaw: seq<(string, string)>, abstractRaw: Option<string>)
    : (r: FullTextResult)
    ensures r.NotInPmc? <==> records == [] || records[0].pmcid.None?
    ensures r.pmid == pmid
    ensures r.NotInPmc? ==> r.error == NotOpenAccess && r.suggestion == AbstractOnly
    ensures r.Found? ==>
      && r.pmcid == records[0].pmcid.value
      && r.pmcLink == PmcLinkPrefix + r.pmcid + "/"
      && r.title == CleanTitle(titleRaw)
      && UniqueKeys(r.sections)
      && StartsWith(r.fullText, "TITLE: " + r.title + "\n")
      && r.fullText == "TITLE: " + r.title + "\n" + Rendered(r.sections)
  {
    if records == [] || records[0].pmcid.None? then
      NotInPmc(pmid, NotOpenAccess, AbstractOnly)
    else
      var pmcid := records[0].pmcid.value;
      var title := CleanTitle(titleRaw);
      var sections := WithAbstract(CollectSections(sectionsRaw), abstractRaw);
      LayoutRendered(title, sections);
      Found(pmid, pmcid, title, sections, Layout(title, sections), PmcLinkPrefix + pmcid + "/")
  }

  /** What the sections of a found article are: the long-enough sections, each cut to the
      limit, and the abstract only when none of them survived. */
  lemma FoundSections(pmid: string, records: seq<ConversionRecord>, titleRaw: Option<string>,
                      sectionsRaw: seq<(string, string)>, abstractRaw: Option<string>)
    requires records != [] && records[0].pmcid.Some?
    ensures var r := GetFullText(pmid, records, titleRaw, sectionsRaw, abstractRaw);
      && (!NoneKept(sectionsRaw) ==> r.sections == CollectSections(sectionsRaw))
      && (!NoneKept(sectionsRaw) ==>
            forall i :: 0 <= i < |r.sections| ==> MinSectionLength < |r.sections[i].1| <= MaxSectionLength)
      && (!NoneKept(sectionsRaw) ==> forall key :: Lookup(r.sections, key) == LastKept(sectionsRaw, key))
      && (NoneKept(sectionsRaw) ==>
            r.sections == (if abstractRaw.Some? then [(AbstractKey, CleanText(abstractRaw.value))] else []))
  {
    var d := CollectSections(sectionsRaw);
    var r := GetFullText(pmid, records, titleRaw, sectionsRaw, abstractRaw);
    assert r.sections == WithAbstract(d, abstractRaw);
    CollectSectionsEmpty(sectionsRaw);
    if d != [] {
      forall key ensures Lookup(r.sections, key) == LastKept(sectionsRaw, key) {
        CollectSectionsLookup(sectionsRaw, key);
      }
    }
  }
}
