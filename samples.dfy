/** Records of the crawl store, shared by the crawler and the exporter. */
module Samples {

  datatype Option<+T> = None | Some(value: T)

  /** One line of the JSONL store: the dictionary with keys url, title,
      summary and text. The crawler always writes a title (possibly empty);
      the exporter reads it with a default of "", so a missing title is
      `None` here. */
  datatype Sample = Sample(url: string, title: Option<string>, summary: string, text: string)

  /** What the crawler demands of an extracted article before saving it. */
  predicate Persistable(s: Sample) {
    s.text != "" && s.summary != ""
  }

  /** The URLs of a sequence of records. */
  function Urls(records: seq<Sample>): set<string> {
    set r | r in records :: r.url
  }

  /** No URL occurs twice. */
  predicate DistinctUrls(records: seq<Sample>) {
    forall i, j | 0 <= i < j < |records| :: records[i].url != records[j].url
  }

  lemma UrlsAppend(a: seq<Sample>, b: seq<Sample>)
    ensures Urls(a + b) == Urls(a) + Urls(b)
  {
    assert forall r :: r in a + b <==> r in a || r in b;
  }

  function Last<T>(s: seq<T>): T
    requires s != []
  {
    s[|s| - 1]
  }

  function DropLast<T>(s: seq<T>): seq<T>
    requires s != []
  {
    s[..|s| - 1]
  }

  lemma SliceSplit<T>(a: seq<T>, b: seq<T>, c: seq<T>)
    requires a <= b && b <= c
    ensures c[|a|..] == b[|a|..] + c[|b|..]
  {
  }

  /** The sequence read back to front. */
  function Reversed<T>(s: seq<T>): (r: seq<T>)
    ensures |r| == |s|
  {
    if s == [] then [] else [Last(s)] + Reversed(DropLast(s))
  }

  lemma {:induction false} ReversedAppend<T>(a: seq<T>, b: seq<T>)
    ensures Reversed(a + b) == Reversed(b) + Reversed(a)
    decreases |b|
  {
    if b == [] {
      assert a + b == a;
    } else {
      assert Last(a + b) == Last(b);
      assert DropLast(a + b) == a + DropLast(b);
      ReversedAppend(a, DropLast(b));
    }
  }
}
