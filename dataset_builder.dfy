/** Export of the crawl store: `DatasetBuilder.build_dataset` reads every
    record of the store and drops duplicates by title with
    `_ignore_duplicates`. */
module DatasetBuilder {
  import opened Samples
  import opened Titles

  /** The key `_ignore_duplicates` compares: the title (`""` when the
      record has none), stripped of surrounding whitespace. */
  function TitleKey(s: Sample): string {
    Strip(if s.title.Some? then s.title.value else "")
  }

  /** The non-empty keys occurring in `samples`. */
  function Keys(samples: seq<Sample>): set<string> {
    if samples == [] then {}
    else Keys(DropLast(samples)) + (if TitleKey(Last(samples)) != "" then {TitleKey(Last(samples))} else {})
  }

  /** Sample `i` is the first one carrying its key, and that key is not
      empty. */
  predicate IsFirstOccurrence(samples: seq<Sample>, i: int)
    requires 0 <= i < |samples|
  {
    TitleKey(samples[i]) != "" && forall j | 0 <= j < i :: TitleKey(samples[j]) != TitleKey(samples[i])
  }

  /** Every key is non-empty and no key occurs twice. */
  predicate UniqueTitles(samples: seq<Sample>) {
    && (forall k | 0 <= k < |samples| :: TitleKey(samples[k]) != "")
    && (forall k, l | 0 <= k < l < |samples| :: TitleKey(samples[k]) != TitleKey(samples[l]))
  }

  /** `r` is the subsequence of `s` at the strictly increasing positions `idx`. */
  ghost predicate Embeds(r: seq<Sample>, s: seq<Sample>, idx: seq<nat>) {
    && |idx| == |r|
    && (forall k | 0 <= k < |idx| :: idx[k] < |s| && r[k] == s[idx[k]])
    && (forall k, l | 0 <= k < l < |idx| :: idx[k] < idx[l])
  }

  /** What `_ignore_duplicates` returns, sample by sample: a record is
      kept when its key is non-empty and has not occurred before. */
  function Dedup(samples: seq<Sample>): (r: seq<Sample>)
    ensures |r| <= |samples|
  {
    if samples == [] then []
    else
      var prev := Dedup(DropLast(samples));
      var key := TitleKey(Last(samples));
      if key != "" && key !in Keys(DropLast(samples)) then prev + [Last(samples)] else prev
  }

  /** The positions of the first occurrences, in increasing order. */
  function FirstIndices(samples: seq<Sample>): (idx: seq<nat>)
    ensures forall k | 0 <= k < |idx| :: idx[k] < |samples|
  {
    if samples == [] then []
    else FirstIndices(DropLast(samples)) + (if IsFirstOccurrence(samples, |samples| - 1) then [|samples| - 1] else [])
  }

  // ---- lemmas ----

  lemma KeysSnoc(samples: seq<Sample>, x: Sample)
    ensures Keys(samples + [x]) == Keys(samples) + (if TitleKey(x) != "" then {TitleKey(x)} else {})
  {
    assert DropLast(samples + [x]) == samples;
  }

  lemma {:induction false} KeyOf(samples: seq<Sample>, j: nat)
    requires j < |samples| && TitleKey(samples[j]) != ""
    ensures TitleKey(samples[j]) in Keys(samples)
    decreases |samples|
  {
    if j < |samples| - 1 {
      assert DropLast(samples)[j] == samples[j];
      KeyOf(DropLast(samples), j);
    }
  }

  lemma {:induction false} KeyWitness(samples: seq<Sample>, key: string) returns (j: nat)
    requires key in Keys(samples)
    ensures key != "" && j < |samples| && TitleKey(samples[j]) == key
    decreases |samples|
  {
    assert samples != [];
    if TitleKey(Last(samples)) == key && key != "" {
      j := |samples| - 1;
    } else {
      assert key in Keys(DropLast(samples));
      j := KeyWitness(DropLast(samples), key);
      assert DropLast(samples)[j] == samples[j];
    }
  }

  lemma KeysIndex(samples: seq<Sample>, key: string)
    ensures key in Keys(samples) <==> key != "" && exists j | 0 <= j < |samples| :: TitleKey(samples[j]) == key
  {
    if key in Keys(samples) {
      var j := KeyWitness(samples, key);
    }
    if key != "" && exists j | 0 <= j < |samples| :: TitleKey(samples[j]) == key {
      var j :| 0 <= j < |samples| && TitleKey(samples[j]) == key;
      KeyOf(samples, j);
    }
  }

  /** Missing and whitespace-only titles give the empty key. */
  lemma TitleKeyEmpty(s: Sample)
    ensures TitleKey(s) == "" <==> s.title == None || Blank(s.title.value)
  {
    StripEmpty(if s.title.Some? then s.title.value else "");
  }

  lemma FirstOccurrenceLast(samples: seq<Sample>)
    requires samples != []
    ensures IsFirstOccurrence(samples, |samples| - 1)
            <==> TitleKey(Last(samples)) != "" && TitleKey(Last(samples)) !in Keys(DropLast(samples))
  {
    KeysIndex(DropLast(samples), TitleKey(Last(samples)));
  }

  /** The record kept for a key is the first one carrying it: `Dedup`
      picks exactly the first occurrences, unchanged and in input order. */
  lemma {:induction false} DedupKeepsFirst(samples: seq<Sample>)
    ensures Embeds(Dedup(samples), samples, FirstIndices(samples))
    ensures forall i | 0 <= i < |samples| :: i in FirstIndices(samples) <==> IsFirstOccurrence(samples, i)
    decreases |samples|
  {
    if samples != [] {
      var init := DropLast(samples);
      DedupKeepsFirst(init);
      FirstOccurrenceLast(samples);
      forall i | 0 <= i < |init|
        ensures IsFirstOccurrence(samples, i) <==> IsFirstOccurrence(init, i)
      {
        assert samples[i] == init[i];
        assert forall j | 0 <= j < i :: samples[j] == init[j];
      }
    }
  }

  /** The kept records have non-empty, pairwise distinct keys. */
  lemma DedupUnique(samples: seq<Sample>)
    ensures UniqueTitles(Dedup(samples))
  {
    var r, idx := Dedup(samples), FirstIndices(samples);
    DedupKeepsFirst(samples);
    forall k | 0 <= k < |r| ensures TitleKey(r[k]) != "" {
      assert idx[k] in idx;
    }
    forall k, l | 0 <= k < l < |r| ensures TitleKey(r[k]) != TitleKey(r[l]) {
      assert idx[l] in idx;
      assert IsFirstOccurrence(samples, idx[l]);
    }
  }

  /** Every non-empty key of the input survives. */
  lemma {:induction false} DedupKeys(samples: seq<Sample>)
    ensures Keys(Dedup(samples)) == Keys(samples)
    decreases |samples|
  {
    if samples != [] {
      var init := DropLast(samples);
      DedupKeys(init);
      assert samples == init + [Last(samples)];
      KeysSnoc(init, Last(samples));
      KeysSnoc(Dedup(init), Last(samples));
    }
  }

  lemma {:induction false} UniqueTitlesCount(samples: seq<Sample>)
    requires UniqueTitles(samples)
    ensures |Keys(samples)| == |samples|
    decreases |samples|
  {
    if samples != [] {
      var init := DropLast(samples);
      assert samples == init + [Last(samples)];
      UniqueTitlesCount(init);
      KeysSnoc(init, Last(samples));
      KeysIndex(init, TitleKey(Last(samples)));
    }
  }

  /** One record is kept per distinct non-empty title; the others are the
      ones counted as removed. */
  lemma DedupCount(samples: seq<Sample>)
    ensures |Dedup(samples)| == |Keys(samples)|
    ensures |samples| - |Dedup(samples)| == |samples| - |Keys(samples)| >= 0
  {
    DedupUnique(samples);
    UniqueTitlesCount(Dedup(samples));
    DedupKeys(samples);
  }

  /** A sequence that already has unique, non-empty titles passes through
      unchanged. */
  lemma {:induction false} DedupFixedPoint(samples: seq<Sample>)
    requires UniqueTitles(samples)
    ensures Dedup(samples) == samples
    decreases |samples|
  {
    if samples != [] {
      var init := DropLast(samples);
      assert samples == init + [Last(samples)];
      DedupFixedPoint(init);
      KeysIndex(init, TitleKey(Last(samples)));
    }
  }

  /** Deduplicating twice is deduplicating once. */
  lemma DedupIdempotent(samples: seq<Sample>)
    ensures Dedup(Dedup(samples)) == Dedup(samples)
  {
    DedupUnique(samples);
    DedupFixedPoint(Dedup(samples));
  }

  /** One more record of the loop of `_ignore_duplicates`. */
  lemma DedupNext(samples: seq<Sample>, i: nat)
    requires i < |samples|
    ensures var key := TitleKey(samples[i]);
            && Dedup(samples[..i + 1]) == (if key != "" && key !in Keys(samples[..i]) then Dedup(samples[..i]) + [samples[i]] else Dedup(samples[..i]))
            && Keys(samples[..i + 1]) == Keys(samples[..i]) + (if key != "" then {key} else {})
  {
    assert samples[..i + 1] == samples[..i] + [samples[i]];
    assert DropLast(samples[..i + 1]) == samples[..i];
    KeysSnoc(samples[..i], samples[i]);
  }

  /** Four records whose keys are k, k, empty and k' with k' != k: the
      first and the fourth are kept. */
  lemma DedupFour(s: seq<Sample>)
    requires |s| == 4
    requires TitleKey(s[0]) != "" && TitleKey(s[1]) == TitleKey(s[0]) && TitleKey(s[2]) == ""
    requires TitleKey(s[3]) != "" && TitleKey(s[3]) != TitleKey(s[0])
    ensures Dedup(s) == [s[0], s[3]]
  {
    var k := TitleKey(s[0]);
    assert s[..0] == [] && Keys([]) == {};
    DedupNext(s, 0);
    assert Dedup(s[..1]) == [s[0]] && Keys(s[..1]) == {k};
    DedupNext(s, 1);
    assert Dedup(s[..2]) == [s[0]] && Keys(s[..2]) == {k};
    DedupNext(s, 2);
    assert Dedup(s[..3]) == [s[0]] && Keys(s[..3]) == {k};
    DedupNext(s, 3);
    assert s[..4] == s;
  }

  /** Titles "X", " X", none and "Y": the first and the fourth record are
      kept. */
  lemma DedupExample(a: Sample, b: Sample, c: Sample, d: Sample)
    requires a.title == Some("X") && b.title == Some(" X") && c.title == None && d.title == Some("Y")
    ensures Dedup([a, b, c, d]) == [a, d]
  {
    assert TitleKey(a) == "X";
    assert TrimStart(" X") == TrimStart(" X"[1..]);
    assert TitleKey(b) == "X";
    assert TitleKey(c) == "";
    assert TitleKey(d) == "Y";
    DedupFour([a, b, c, d]);
  }

  // ---- the loop ----

  /** `_ignore_duplicates`: one pass, remembering the keys kept so far. */
  method IgnoreDuplicates(samples: seq<Sample>) returns (unique: seq<Sample>)
    ensures unique == Dedup(samples)
  {
    var seenTitles: set<string> := {};
    unique := [];
    for i := 0 to |samples|
      invariant unique == Dedup(samples[..i])
      invariant seenTitles == Keys(samples[..i])
    {
      var sample := samples[i];
      var title := TitleKey(sample);
      DedupNext(samples, i);
      if title != "" && title !in seenTitles {
        seenTitles := seenTitles + {title};
        unique := unique + [sample];
      }
    }
    assert samples[..|samples|] == samples;
  }

  /** `build_dataset` without the upload: the store read in full, then
      deduplicated. */
  method BuildDataset(raw: seq<Sample>) returns (samples: seq<Sample>)
    ensures samples == Dedup(raw)
  {
    samples := IgnoreDuplicates(raw);
  }
}
