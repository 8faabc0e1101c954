/**
 Tender records as the script handles them: JSON objects with string values,
 compared structurally (two records are the same when they have the same keys
 bound to the same values).
 */
module Records {

  /** A tender record, `{"title": ..., "link": ...}` as `Match.to_dict` builds it,
      or any object read back from the matches file. */
  type Record = map<string, string>

  /** `d.get(key, default)`. */
  function Get(d: Record, key: string, default: string): (r: string)
    ensures key in d ==> r == d[key]
    ensures key !in d ==> r == default
  {
    if key in d then d[key] else default
  }

  /** `Match(title, link).to_dict()`: a record holding exactly a title and a link. */
  function ToDict(title: string, link: string): (r: Record)
    ensures r.Keys == {"title", "link"}
    ensures Get(r, "title", "") == title && Get(r, "link", "") == link
  {
    map["title" := title, "link" := link]
  }

  /** Structural equality of built records is equality of their titles and links,
      so two extracted items count as the same tender exactly when both agree. */
  lemma ToDictInjective(t1: string, l1: string, t2: string, l2: string)
    ensures ToDict(t1, l1) == ToDict(t2, l2) <==> t1 == t2 && l1 == l2
  {
    if ToDict(t1, l1) == ToDict(t2, l2) {
      assert ToDict(t1, l1)["title"] == ToDict(t2, l2)["title"];
      assert ToDict(t1, l1)["link"] == ToDict(t2, l2)["link"];
    }
  }
}
