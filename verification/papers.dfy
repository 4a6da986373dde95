/** The paper record shared by the search backend and the client. */
module Papers {
  import opened Wrappers

  /** One search result. The backend always fills `pubdate`; the client treats it as optional. */
  datatype Paper = Paper(
    id: string,
    title: string,
    authors: string,
    journal: string,
    pubdate: Option<string>,
    link: string,
    abstractText: string,
    meshTerms: seq<string>,
    citation: string
  )

  /** True when some paper in `papers` has the given id. */
  predicate HasId(papers: seq<Paper>, id: string) {
    exists i :: 0 <= i < |papers| && papers[i].id == id
  }

  /** No two papers share an id. */
  predicate DistinctIds(papers: seq<Paper>) {
    forall i, j :: 0 <= i < j < |papers| ==> papers[i].id != papers[j].id
  }
}
