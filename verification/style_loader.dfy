/** `load_styles_for_dataset`: the catalog's kept entries as a sorted gallery sample list
    and a name-keyed lookup, or an empty pair when anything in the load raises; and the
    gallery select handler that reads the lookup back. */
module StyleLoader {
  import opened Wrappers
  import StringOrder
  import opened StyleEntries
  import opened StableSort
  import opened StyleLookup

  /** The loader's result `(dataset_samples, style_lookup)`. */
  datatype Catalog = Catalog(samples: seq<Sample>, lookup: map<string, StyleRecord>)

  /** `return [], {}`. */
  const EmptyCatalog: Catalog := Catalog([], map[])

  /** The samples appended by the loop, before sorting. */
  function SamplesOf(rs: seq<StyleRecord>): (ss: seq<Sample>)
    ensures |ss| == |rs|
    ensures forall i :: 0 <= i < |rs| ==> ss[i] == ToSample(rs[i])
  {
    seq(|rs|, i requires 0 <= i < |rs| => ToSample(rs[i]))
  }

  /** A sample occurs in `SamplesOf(rs)` exactly when some record of `rs` produces it. */
  lemma SamplesOfMembers(rs: seq<StyleRecord>, s: Sample)
    ensures s in SamplesOf(rs) <==> exists r :: r in rs && ToSample(r) == s
  {
    var ss := SamplesOf(rs);
    if s in ss {
      var i :| 0 <= i < |ss| && ss[i] == s;
      assert rs[i] in rs;
    }
    if exists r :: r in rs && ToSample(r) == s {
      var r :| r in rs && ToSample(r) == s;
      var i :| 0 <= i < |rs| && rs[i] == r;
      assert ss[i] == s;
    }
  }

  /** The names in the sorted sample list are the names of the kept records. */
  lemma SortedSampleNames(rs: seq<StyleRecord>)
    ensures (set s | s in Sort(SamplesOf(rs)) :: s.name) == (set r | r in rs :: r.name)
  {
    var sorted := Sort(SamplesOf(rs));
    var fromSamples := set s | s in sorted :: s.name;
    var fromRecords := set r | r in rs :: r.name;
    forall n | n in fromRecords ensures n in fromSamples {
      var r :| r in rs && r.name == n;
      SamplesOfMembers(rs, ToSample(r));
      assert ToSample(r) in multiset(sorted);
    }
    forall n | n in fromSamples ensures n in fromRecords {
      var s :| s in sorted && s.name == n;
      assert s in multiset(SamplesOf(rs));
      SamplesOfMembers(rs, s);
      var r :| r in rs && ToSample(r) == s;
      assert r.name == n;
    }
  }

  /** Every sample in the sorted list comes from a well-formed kept record. */
  lemma SortedSamplesWellFormed(rs: seq<StyleRecord>, base: string)
    requires forall r :: r in rs ==> WellFormed(r, base)
    ensures forall s :: s in Sort(SamplesOf(rs)) ==> exists r :: r in rs && WellFormed(r, base) && ToSample(r) == s
  {
    forall s | s in Sort(SamplesOf(rs)) ensures exists r :: r in rs && WellFormed(r, base) && ToSample(r) == s {
      assert s in multiset(SamplesOf(rs));
      SamplesOfMembers(rs, s);
    }
  }

  /** The whole load. `doc` is the parsed top-level JSON value, `None` when the file cannot
      be opened or parsed or does not hold an array; `base` is the URL prefix. */
  function LoadStyles(doc: Option<seq<Entry>>, base: string): (c: Catalog)
    ensures doc.None? ==> c == EmptyCatalog
    ensures Sorted(c.samples)
    ensures c.lookup.Keys == set s | s in c.samples :: s.name
    ensures forall s :: s in c.samples ==>
              && IsAcceptedFeature(s.feature) && s.name != ""
              && |s.afterUrl| > |base| && s.afterUrl[..|base|] == base
              && (s.beforeUrl.Some? ==> |s.beforeUrl.value| > |base| && s.beforeUrl.value[..|base|] == base)
    ensures forall n :: n in c.lookup ==> c.lookup[n].name == n && WellFormed(c.lookup[n], base)
  {
    match doc
    case None => EmptyCatalog
    case Some(entries) =>
      match Collect(entries, base)
      case None => EmptyCatalog
      case Some(kept) =>
        SortedSampleNames(kept);
        SortedSamplesWellFormed(kept, base);
        Catalog(Sort(SamplesOf(kept)), BuildLookup(kept))
  }

  /** The catalog holds no element on which the loop body raises. */
  predicate NoneRaise(entries: seq<Entry>)
  {
    forall i :: 0 <= i < |entries| ==> !Raises(entries[i])
  }

  /** Soft failure: the load yields the empty pair exactly when some element raises or no
      element qualifies. */
  lemma LoadEmptyIff(entries: seq<Entry>, base: string)
    ensures LoadStyles(Some(entries), base) == EmptyCatalog <==>
              (exists i :: 0 <= i < |entries| && Raises(entries[i])) || QualifyingIndices(entries) == {}
  {
    CollectFailsIffRaises(entries, base);
    if NoneRaise(entries) {
      CollectCountsQualifying(entries, base);
      var kept := Collect(entries, base).value;
      if QualifyingIndices(entries) == {} {
        assert kept == [];
      } else {
        assert |Sort(SamplesOf(kept))| > 0;
      }
    }
  }

  /** Filter membership in both directions: a sample is in the gallery exactly when some
      entry of the catalog qualifies and resolves to it. */
  lemma LoadSampleOrigins(entries: seq<Entry>, base: string, s: Sample)
    requires NoneRaise(entries)
    ensures s in LoadStyles(Some(entries), base).samples <==>
              exists i, r :: 0 <= i < |entries| && Examine(entries[i], base) == Keep(r) && ToSample(r) == s
  {
    CollectFailsIffRaises(entries, base);
    var kept := Collect(entries, base).value;
    var samples := LoadStyles(Some(entries), base).samples;
    assert samples == Sort(SamplesOf(kept));
    assert s in samples <==> s in multiset(SamplesOf(kept));
    SamplesOfMembers(kept, s);
    if exists r :: r in kept && ToSample(r) == s {
      var r :| r in kept && ToSample(r) == s;
      CollectMembers(entries, base, r);
    }
    if exists i, r :: 0 <= i < |entries| && Examine(entries[i], base) == Keep(r) && ToSample(r) == s {
      var i, r :| 0 <= i < |entries| && Examine(entries[i], base) == Keep(r) && ToSample(r) == s;
      CollectMembers(entries, base, r);
    }
  }

  /** With no raising element, the gallery has one sample per qualifying entry. */
  lemma LoadSamplesCount(entries: seq<Entry>, base: string)
    requires NoneRaise(entries)
    ensures |LoadStyles(Some(entries), base).samples| == |QualifyingIndices(entries)|
  {
    CollectCountsQualifying(entries, base);
  }

  /** With no raising element, the gallery is a permutation of the samples in the order
      the loop appended them, and samples with equal sort keys keep that order. */
  lemma LoadSamplesArrangement(entries: seq<Entry>, base: string)
    requires NoneRaise(entries)
    ensures Collect(entries, base).Some?
    ensures var samples := LoadStyles(Some(entries), base).samples;
            var appended := SamplesOf(Collect(entries, base).value);
            && multiset(samples) == multiset(appended)
            && forall k :: WithKey(samples, k) == WithKey(appended, k)
  {
    CollectFailsIffRaises(entries, base);
    var appended := SamplesOf(Collect(entries, base).value);
    forall k ensures WithKey(Sort(appended), k) == WithKey(appended, k) {
      SortStable(appended, k);
    }
  }

  /** Last write wins, stated over the catalog: the lookup entry for a name is the record
      of the last qualifying entry carrying that name. */
  lemma LoadLookupLastWins(entries: seq<Entry>, base: string, i: int, r: StyleRecord)
    requires NoneRaise(entries)
    requires 0 <= i < |entries| && Examine(entries[i], base) == Keep(r)
    requires forall j :: i < j < |entries| && Qualifies(entries[j]) ==> entries[j].name != Some(r.name)
    ensures r.name in LoadStyles(Some(entries), base).lookup
    ensures LoadStyles(Some(entries), base).lookup[r.name] == r
  {
    var front, back := entries[..i + 1], entries[i + 1..];
    assert entries == front + back;
    assert front[..i] == entries[..i];
    CollectFailsIffRaises(entries[..i], base);
    CollectFailsIffRaises(back, base);
    CollectAppend(front, back, base);
    var keptFront := Collect(entries[..i], base).value;
    var keptBack := Collect(back, base).value;
    var kept := keptFront + [r] + keptBack;
    assert Collect(entries, base).value == kept;
    forall j | |keptFront| < j < |kept| ensures kept[j].name != r.name {
      assert kept[j] in keptBack;
      CollectMembers(back, base, kept[j]);
      var m :| 0 <= m < |back| && Examine(back[m], base) == Keep(kept[j]);
      assert back[m] == entries[i + 1 + m];
    }
    LookupLastWriteWins(kept, |keptFront|);
  }

  /** When no two qualifying entries share a name, the lookup agrees with every sample. */
  lemma LoadLookupMatchesSamples(entries: seq<Entry>, base: string)
    requires NoneRaise(entries)
    requires forall i, j :: 0 <= i < j < |entries| && Qualifies(entries[i]) && Qualifies(entries[j]) ==>
               entries[i].name != entries[j].name
    ensures var c := LoadStyles(Some(entries), base);
            forall s :: s in c.samples ==> s.name in c.lookup && ToSample(c.lookup[s.name]) == s
  {
    var c := LoadStyles(Some(entries), base);
    forall s | s in c.samples ensures s.name in c.lookup && ToSample(c.lookup[s.name]) == s {
      LoadSampleOrigins(entries, base, s);
      var i, r :| 0 <= i < |entries| && Examine(entries[i], base) == Keep(r) && ToSample(r) == s;
      LoadLookupLastWins(entries, base, i, r);
    }
  }

  /** The loader written as the source writes it: one pass over the catalog that appends a
      sample and overwrites the lookup entry for each qualifying element, abandoning the
      load as soon as an element raises, then the sort. */
  method LoadStylesLoop(doc: Option<seq<Entry>>, base: string) returns (samples: seq<Sample>, lookup: map<string, StyleRecord>)
    ensures Catalog(samples, lookup) == LoadStyles(doc, base)
  {
    if doc.None? {
      return [], map[];
    }
    var entries := doc.value;
    var appended: seq<Sample> := [];
    var table: map<string, StyleRecord> := map[];
    var i := 0;
    while i < |entries|
      invariant 0 <= i <= |entries|
      invariant Collect(entries[..i], base).Some?
      invariant appended == SamplesOf(Collect(entries[..i], base).value)
      invariant table == BuildLookup(Collect(entries[..i], base).value)
    {
      assert entries[..i + 1][..i] == entries[..i];
      match Examine(entries[i], base) {
        case Raise =>
          CollectFailsIffRaises(entries, base);
          return [], map[];
        case Skip =>
        case Keep(r) =>
          appended := appended + [ToSample(r)];
          table := table[r.name := r];
      }
      i := i + 1;
    }
    assert entries[..i] == entries;
    samples := Sort(appended);
    lookup := table;
  }

  /** With a repeated name the gallery still shows both samples, while the lookup keeps only
      one record per name: when the two entries resolve to different samples, some sample is
      not what selecting it displays. */
  lemma DuplicateNameShadowsSample(entries: seq<Entry>, base: string, i: int, j: int,
                                   ri: StyleRecord, rj: StyleRecord)
    requires NoneRaise(entries)
    requires 0 <= i < |entries| && 0 <= j < |entries|
    requires Examine(entries[i], base) == Keep(ri) && Examine(entries[j], base) == Keep(rj)
    requires ri.name == rj.name && ToSample(ri) != ToSample(rj)
    ensures var c := LoadStyles(Some(entries), base);
            exists s :: s in c.samples && s.name in c.lookup && ToSample(c.lookup[s.name]) != s
  {
    var c := LoadStyles(Some(entries), base);
    LoadSampleOrigins(entries, base, ToSample(ri));
    LoadSampleOrigins(entries, base, ToSample(rj));
    assert ToSample(ri) in c.samples && ToSample(rj) in c.samples;
    if ToSample(c.lookup[ri.name]) != ToSample(ri) {
      assert ToSample(ri).name == ri.name;
    } else {
      assert ToSample(rj).name == ri.name;
    }
  }

  /** Two qualifying entries named "Retro" with different images. */
  function DuplicateNameCatalog(): seq<Entry>
  {
    [ StyleObject(Some("Retro"), Some("p1"), Some(FeatureArt), ImageObject(Some("/a.png")), Absent),
      StyleObject(Some("Retro"), Some("p2"), Some(FeatureArt), ImageObject(Some("/b.png")), Absent) ]
  }

  /** An instance: of the two "Retro" samples, one shows images the lookup does not hold. */
  lemma DuplicateNameExample()
    ensures var c := LoadStyles(Some(DuplicateNameCatalog()), "");
            exists s :: s in c.samples && s.name in c.lookup && ToSample(c.lookup[s.name]) != s
  {
    var entries := DuplicateNameCatalog();
    var first := StyleRecord("Retro", "p1", FeatureArt, None, "/a.png");
    var second := StyleRecord("Retro", "p2", FeatureArt, None, "/b.png");
    assert Examine(entries[0], "") == Keep(first);
    assert Examine(entries[1], "") == Keep(second);
    assert ToSample(first).afterUrl != ToSample(second).afterUrl;
    DuplicateNameShadowsSample(entries, "", 0, 1, first, second);
  }

  /** What the gallery select handler displays for a clicked sample: the stored record, its
      name and feature, and the two reference images, each shown only when its URL is
      non-empty. */
  datatype Selection = Selection(style: StyleRecord, shownName: string, shownFeature: string,
                                 beforeImage: Option<string>, afterImage: Option<string>)

  /** `visible=bool(url)`. */
  function Shown(url: Option<string>): (shown: Option<string>)
    ensures shown.Some? <==> url.Some? && url.value != ""
    ensures shown.Some? ==> shown == url
  {
    if url.Some? && url.value != "" then url else None
  }

  /** The select handler: looks the clicked sample's name (`evt.value[2]`) up in the lookup.
      `None` stands for a missing name, on which the handler raises when it reads the name
      of the absent record. */
  function SelectStyle(lookup: map<string, StyleRecord>, clicked: Sample): (sel: Option<Selection>)
    ensures sel.Some? <==> clicked.name in lookup
    ensures sel.Some? ==>
              && sel.value.style == lookup[clicked.name]
              && sel.value.shownName == sel.value.style.name
              && sel.value.shownFeature == sel.value.style.feature
    ensures sel.Some? ==>
              && (sel.value.afterImage.Some? <==> sel.value.style.afterUrl != "")
              && (sel.value.afterImage.Some? ==> sel.value.afterImage.value == sel.value.style.afterUrl)
              && (sel.value.beforeImage.Some? <==> Present(sel.value.style.beforeUrl))
              && (sel.value.beforeImage.Some? ==> sel.value.beforeImage == sel.value.style.beforeUrl)
  {
    if clicked.name !in lookup then
      None
    else
      var info := lookup[clicked.name];
      Some(Selection(info, info.name, info.feature, Shown(info.beforeUrl), Shown(Some(info.afterUrl))))
  }

  /** Selecting any sample of a loaded gallery succeeds, shows a record of the same name and
      an accepted feature, and always shows the styled reference image. */
  lemma GallerySelectionResolves(doc: Option<seq<Entry>>, base: string, s: Sample)
    requires s in LoadStyles(doc, base).samples
    ensures var sel := SelectStyle(LoadStyles(doc, base).lookup, s);
            && sel.Some?
            && sel.value.shownName == s.name
            && IsAcceptedFeature(sel.value.shownFeature)
            && sel.value.afterImage.Some?
  {
  }

  /** When no two qualifying entries share a name, selecting a sample of the loaded gallery
      displays exactly that sample: its name, its feature, its styled image, and its original
      image exactly when the sample has one. */
  lemma GallerySelectionShowsSample(entries: seq<Entry>, base: string, s: Sample)
    requires NoneRaise(entries)
    requires forall i, j :: 0 <= i < j < |entries| && Qualifies(entries[i]) && Qualifies(entries[j]) ==>
               entries[i].name != entries[j].name
    requires s in LoadStyles(Some(entries), base).samples
    ensures var sel := SelectStyle(LoadStyles(Some(entries), base).lookup, s);
            && sel.Some?
            && sel.value.shownName == s.name
            && sel.value.shownFeature == s.feature
            && sel.value.afterImage == Some(s.afterUrl)
            && sel.value.beforeImage == s.beforeUrl
  {
    LoadLookupMatchesSamples(entries, base);
  }

  /** A two-entry catalog under the prefix `https://cdn.example`. */
  const ExampleBase: string := "https://cdn.example"

  function ExampleCatalog(): seq<Entry>
  {
    [ StyleObject(Some("Vintage"), Some("p1"), Some(FeatureArt), ImageObject(Some("/a.png")), Absent),
      StyleObject(Some("Retro"), Some("p2"), Some(FeatureChangestyle), ImageObject(Some("/b.png")), Absent) ]
  }

  lemma ExampleCollect()
    ensures Collect(ExampleCatalog(), ExampleBase)
         == Some([ StyleRecord("Vintage", "p1", FeatureArt, None, "https://cdn.example/a.png"),
                   StyleRecord("Retro", "p2", FeatureChangestyle, None, "https://cdn.example/b.png") ])
  {
    var catalog := ExampleCatalog();
    var rv := StyleRecord("Vintage", "p1", FeatureArt, None, "https://cdn.example/a.png");
    var rr := StyleRecord("Retro", "p2", FeatureChangestyle, None, "https://cdn.example/b.png");
    assert Examine(catalog[0], ExampleBase) == Keep(rv);
    assert Examine(catalog[1], ExampleBase) == Keep(rr);
    assert catalog[..1] == [catalog[0]];
    CollectSingle(catalog[0], ExampleBase);
    assert [rv] + [rr] == [rv, rr];
  }

  /** The `AI_Art` tag sorts before the `AI_Art_Changestyle` tag. */
  lemma ArtBeforeChangestyle()
    ensures StringOrder.Lt(FeatureArt, FeatureChangestyle)
  {
    assert FeatureArt == FeatureChangestyle[..|FeatureArt|];
    StringOrder.ProperPrefixLt(FeatureArt, FeatureChangestyle);
  }

  lemma ExampleSort()
    ensures var sv := Sample(None, "https://cdn.example/a.png", "Vintage", FeatureArt);
            var sr := Sample(None, "https://cdn.example/b.png", "Retro", FeatureChangestyle);
            Sort([sv, sr]) == [sv, sr]
  {
    var sv := Sample(None, "https://cdn.example/a.png", "Vintage", FeatureArt);
    var sr := Sample(None, "https://cdn.example/b.png", "Retro", FeatureChangestyle);
    ArtBeforeChangestyle();
    assert KeyLe(KeyOf(sv), KeyOf(sr));
    SortPairInOrder(sv, sr);
  }

  /** The two records the example catalog keeps, in file order. */
  function ExampleKept(): seq<StyleRecord>
  {
    [ StyleRecord("Vintage", "p1", FeatureArt, None, "https://cdn.example/a.png"),
      StyleRecord("Retro", "p2", FeatureChangestyle, None, "https://cdn.example/b.png") ]
  }

  lemma ExampleLoad()
    ensures LoadStyles(Some(ExampleCatalog()), ExampleBase)
         == Catalog(Sort(SamplesOf(ExampleKept())), BuildLookup(ExampleKept()))
  {
    ExampleCollect();
  }

  lemma ExampleLookup()
    ensures "Vintage" in BuildLookup(ExampleKept())
    ensures BuildLookup(ExampleKept())["Vintage"] == ExampleKept()[0]
  {
    LookupLastWriteWins(ExampleKept(), 0);
  }

  /** `"AI_Art"` is a proper prefix of `"AI_Art_Changestyle"`, so the `AI_Art` style sorts
      first whatever its name; a style without `image_before` has no before URL. */
  lemma TwoStyleExample()
    ensures var c := LoadStyles(Some(ExampleCatalog()), ExampleBase);
            && c.samples == [ Sample(None, "https://cdn.example/a.png", "Vintage", FeatureArt),
                              Sample(None, "https://cdn.example/b.png", "Retro", FeatureChangestyle) ]
            && c.lookup["Vintage"] == StyleRecord("Vintage", "p1", FeatureArt, None, "https://cdn.example/a.png")
  {
    var kept := ExampleKept();
    var sv := Sample(None, "https://cdn.example/a.png", "Vintage", FeatureArt);
    var sr := Sample(None, "https://cdn.example/b.png", "Retro", FeatureChangestyle);
    assert SamplesOf(kept) == [sv, sr] by {
      assert SamplesOf(kept) == [ToSample(kept[0]), ToSample(kept[1])];
    }
    ExampleSort();
    ExampleLoad();
    ExampleLookup();
  }
}
