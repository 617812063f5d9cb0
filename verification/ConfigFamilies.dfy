// The store's own table of dictionary-valued keys, and that its prefixes cannot be confused.
module ConfigFamilies {
  import opened Wrappers
  import opened JsonTrees
  import opened ApiFragment
  import opened ConfigFlatten
  import opened ConfigRepair
  import opened ConfigStartup

  const FAMILIES: seq<Family> := [
    Family("openai.api_configs", ["OPENAI_API_CONFIGS"], Some(API_CONFIG_FIELDS)),
    Family("ollama.api_configs", ["OLLAMA_API_CONFIGS"], Some(API_CONFIG_FIELDS)),
    Family("rag.mineru_params", ["MINERU_PARAMS"], None),
    Family("rag.docling_params", ["DOCLING_PARAMS"], None),
    Family("web.search.linkup_search_params", ["LINKUP_SEARCH_PARAMS"], None),
    Family("image_generation.automatic1111.api_params", ["AUTOMATIC1111_PARAMS"], None),
    Family("image_generation.openai.params", ["IMAGES_OPENAI_API_PARAMS"], None),
    Family("audio.tts.openai.params", ["AUDIO_TTS_OPENAI_PARAMS"], None),
    Family("models.default_metadata", ["DEFAULT_MODEL_METADATA"], None),
    Family("models.default_params", ["DEFAULT_MODEL_PARAMS"], None),
    Family("user.permissions", ["USER_PERMISSIONS"], None)
  ]

  // Two texts that differ somewhere are not prefixes of each other, whatever follows them.
  lemma DifferAt(p: string, q: string, i: nat)
    requires i < |p| && i < |q| && p[i] != q[i]
    ensures Distinct(p, q) && Distinct(q, p)
  {
    assert (p + ".")[i] == p[i] && (q + ".")[i] == q[i];
  }

  // A few characters that tell most prefixes apart.
  function Sample(p: string): (char, char, char)
    requires |p| > 4
  {
    (p[0], p[1], p[4])
  }

  lemma SamplesDiffer(p: string, q: string)
    requires |p| > 4 && |q| > 4 && Sample(p) != Sample(q)
    ensures Distinct(p, q) && Distinct(q, p)
  {
    DifferAt(p, q, if p[0] != q[0] then 0 else if p[1] != q[1] then 1 else 4);
  }

  const KEY_SAMPLES := [
    ('o', 'p', 'a'), ('o', 'l', 'm'), ('r', 'a', 'm'), ('r', 'a', 'd'), ('w', 'e', 's'), ('i', 'm', 'e'),
    ('i', 'm', 'e'), ('a', 'u', 'o'), ('m', 'o', 'l'), ('m', 'o', 'l'), ('u', 's', '.')
  ]

  const ALIAS_SAMPLES := [
    ('O', 'P', 'A'), ('O', 'L', 'M'), ('M', 'I', 'R'), ('D', 'O', 'I'), ('L', 'I', 'U'), ('A', 'U', 'M'),
    ('I', 'M', 'E'), ('A', 'U', 'O'), ('D', 'E', 'U'), ('D', 'E', 'U'), ('U', 'S', '_')
  ]

  lemma KeySample(i: nat)
    requires i < |FAMILIES|
    ensures |FAMILIES| == 11 == |KEY_SAMPLES|
    ensures |FAMILIES[i].key| > 4 && Sample(FAMILIES[i].key) == KEY_SAMPLES[i]
  {
    if i < 3 {
      FirstKeySamples(i);
    } else if i < 5 {
      MiddleKeySamples(i);
    } else if i == 5 {
      LongestKeySample();
    } else {
      LastKeySamples(i);
    }
  }

  lemma FirstKeySamples(i: nat)
    requires i < 3
    ensures |FAMILIES| == 11 == |KEY_SAMPLES|
    ensures |FAMILIES[i].key| > 4 && Sample(FAMILIES[i].key) == KEY_SAMPLES[i]
  {
  }

  lemma MiddleKeySamples(i: nat)
    requires 3 <= i < 5
    ensures |FAMILIES| == 11 == |KEY_SAMPLES|
    ensures |FAMILIES[i].key| > 4 && Sample(FAMILIES[i].key) == KEY_SAMPLES[i]
  {
  }

  lemma LongestKeySample()
    ensures |FAMILIES| == 11 == |KEY_SAMPLES|
    ensures |FAMILIES[5].key| > 4 && Sample(FAMILIES[5].key) == KEY_SAMPLES[5]
  {
  }

  lemma LastKeySamples(i: nat)
    requires 6 <= i < 11
    ensures |FAMILIES| == 11 == |KEY_SAMPLES|
    ensures |FAMILIES[i].key| > 4 && Sample(FAMILIES[i].key) == KEY_SAMPLES[i]
  {
  }

  lemma AliasSample(i: nat)
    requires i < |FAMILIES|
    ensures |FAMILIES| == 11 == |ALIAS_SAMPLES|
    ensures |FAMILIES[i].aliases| == 1 && |FAMILIES[i].aliases[0]| > 4
    ensures Sample(FAMILIES[i].aliases[0]) == ALIAS_SAMPLES[i]
  {
  }

  // Only two pairs of neighbours look alike.
  lemma SamplesAreApart(i: nat, j: nat)
    requires i < 11 && j < 11
    ensures |KEY_SAMPLES| == 11 == |ALIAS_SAMPLES|
    ensures i < j && KEY_SAMPLES[i] == KEY_SAMPLES[j] ==> (i == 5 && j == 6) || (i == 8 && j == 9)
    ensures i < j && ALIAS_SAMPLES[i] == ALIAS_SAMPLES[j] ==> i == 8 && j == 9
    ensures KEY_SAMPLES[i] != ALIAS_SAMPLES[j]
  {
  }

  lemma Neighbours()
    ensures |FAMILIES| == 11 && |FAMILIES[8].aliases| == 1 == |FAMILIES[9].aliases|
    ensures Distinct(FAMILIES[5].key, FAMILIES[6].key)
    ensures Distinct(FAMILIES[8].key, FAMILIES[9].key)
    ensures Distinct(FAMILIES[8].aliases[0], FAMILIES[9].aliases[0])
  {
    DifferAt(FAMILIES[5].key, FAMILIES[6].key, 17);
    DifferAt(FAMILIES[8].key, FAMILIES[9].key, 15);
    DifferAt(FAMILIES[8].aliases[0], FAMILIES[9].aliases[0], 14);
  }

  lemma KeysAreApart(i: nat, j: nat)
    requires i < j < |FAMILIES|
    ensures Distinct(FAMILIES[i].key, FAMILIES[j].key)
  {
    KeySample(i);
    KeySample(j);
    SamplesAreApart(i, j);
    if KEY_SAMPLES[i] == KEY_SAMPLES[j] {
      Neighbours();
    } else {
      SamplesDiffer(FAMILIES[i].key, FAMILIES[j].key);
    }
  }

  lemma AliasesAreApart(i: nat, j: nat)
    requires i < j < |FAMILIES|
    ensures |FAMILIES[i].aliases| == 1 == |FAMILIES[j].aliases|
    ensures Distinct(FAMILIES[i].aliases[0], FAMILIES[j].aliases[0])
  {
    AliasSample(i);
    AliasSample(j);
    SamplesAreApart(i, j);
    if ALIAS_SAMPLES[i] == ALIAS_SAMPLES[j] {
      Neighbours();
    } else {
      SamplesDiffer(FAMILIES[i].aliases[0], FAMILIES[j].aliases[0]);
    }
  }

  lemma KeyAndAliasAreApart(i: nat, j: nat)
    requires i < |FAMILIES| && j < |FAMILIES|
    ensures |FAMILIES[j].aliases| == 1
    ensures Distinct(FAMILIES[i].key, FAMILIES[j].aliases[0]) && Distinct(FAMILIES[j].aliases[0], FAMILIES[i].key)
  {
    KeySample(i);
    AliasSample(j);
    SamplesAreApart(i, j);
    SamplesDiffer(FAMILIES[i].key, FAMILIES[j].aliases[0]);
  }

  lemma PrefixesOf(i: nat, p: string)
    requires i < |FAMILIES| && p in Prefixes(FAMILIES[i])
    ensures |FAMILIES[i].aliases| == 1 && (p == FAMILIES[i].key || p == FAMILIES[i].aliases[0])
  {
    AliasSample(i);
  }

  lemma TableIsUnambiguous()
    ensures Unambiguous(FAMILIES)
  {
    forall i, j, p, q | 0 <= i < j < |FAMILIES| && p in Prefixes(FAMILIES[i]) && q in Prefixes(FAMILIES[j])
      ensures Distinct(p, q)
    {
      PrefixesOf(i, p);
      PrefixesOf(j, q);
      KeysAreApart(i, j);
      AliasesAreApart(i, j);
      KeyAndAliasAreApart(i, j);
      KeyAndAliasAreApart(j, i);
    }
    forall f, p, q | f in FAMILIES && p in Prefixes(f) && q in Prefixes(f) && p != q ensures Distinct(p, q) {
      var i :| 0 <= i < |FAMILIES| && FAMILIES[i] == f;
      PrefixesOf(i, p);
      PrefixesOf(i, q);
      KeyAndAliasAreApart(i, i);
    }
  }

  // The prefix the startup renames away, and the one that replaces it.
  const OLD_PREFIX := "rag.web"
  const NEW_PREFIX := "web"

  lemma RenameIsOutside()
    ensures Distinct(OLD_PREFIX, NEW_PREFIX) && OutsidePrefix(FAMILIES, OLD_PREFIX)
  {
    DifferAt(OLD_PREFIX, NEW_PREFIX, 0);
    forall f | f in FAMILIES ensures !HasPrefix(OLD_PREFIX, f.key) {
      var i :| 0 <= i < |FAMILIES| && FAMILIES[i] == f;
      KeySample(i);
      SamplesDiffer(OLD_PREFIX, f.key);
      assert OLD_PREFIX + "." <= f.key ==> OLD_PREFIX + "." <= f.key + ".";
    }
  }

  // The startup of the application, with its own table and prefixes: run twice, it changes
  // nothing more.
  lemma ApplicationStartupIsIdempotent(s: Store, defaults: Store, listings: seq<seq<string>>, again: seq<seq<string>>)
    requires PlainDefaults(FAMILIES, defaults, OLD_PREFIX)
    requires ListsAll(FAMILIES, Renamed(s, OLD_PREFIX, NEW_PREFIX), listings)
    requires var once := Startup(FAMILIES, s, defaults, OLD_PREFIX, NEW_PREFIX, listings);
             ListsAll(FAMILIES, Renamed(once, OLD_PREFIX, NEW_PREFIX), again)
    ensures var once := Startup(FAMILIES, s, defaults, OLD_PREFIX, NEW_PREFIX, listings);
            Startup(FAMILIES, once, defaults, OLD_PREFIX, NEW_PREFIX, again) == once
  {
    TableIsUnambiguous();
    RenameIsOutside();
    StartupIsIdempotent(FAMILIES, s, defaults, OLD_PREFIX, NEW_PREFIX, listings, again);
  }

  // A value that is no dictionary, stored under the old prefix at a dictionary's key, is lost
  // to a flattened row of that dictionary.
  const LINKUP := "web.search.linkup_search_params"
  const OLD_ROW := "rag." + LINKUP
  const FLAT_ROW := "LINKUP_SEARCH_PARAMS" + "." + "depth"

  lemma OldRowMoves()
    ensures HasPrefix(OLD_PREFIX, OLD_ROW) && Moved(OLD_PREFIX, NEW_PREFIX, OLD_ROW) == FAMILIES[4].key
    ensures OLD_ROW != FLAT_ROW && FAMILIES[4].key != OLD_ROW && FAMILIES[4].key != FLAT_ROW
    ensures !HasPrefix(OLD_PREFIX, FLAT_ROW)
  {
    assert FAMILIES[4].key == LINKUP && LINKUP[..4] == "web.";
    RagRowMoves(LINKUP);
    FlatRowIsElse(LINKUP);
  }

  lemma RagRowMoves(key: string)
    requires |key| >= 4 && key[..4] == "web."
    ensures HasPrefix(OLD_PREFIX, "rag." + key) && Moved(OLD_PREFIX, NEW_PREFIX, "rag." + key) == key
    ensures "rag." + key != key
  {
    var row := "rag." + key;
    assert row[..8] == "rag." + key[..4] == OLD_PREFIX + ".";
    assert row[8..] == key[4..] && key == key[..4] + key[4..];
  }

  lemma FlatRowIsElse(key: string)
    requires |key| >= 4 && key[..4] == "web."
    ensures key != FLAT_ROW && "rag." + key != FLAT_ROW && !HasPrefix(OLD_PREFIX, FLAT_ROW)
  {
    assert FLAT_ROW[0] == 'L' && key[0] == key[..4][0] && ("rag." + key)[0] == 'r' && (OLD_PREFIX + ".")[0] == 'r';
  }

  lemma FlatRowApplies()
    ensures Applies(FAMILIES[4], EMPTY, FLAT_ROW)
  {
    TableIsUnambiguous();
    ConnectionFieldsAre(4);
    AliasSample(4);
    var f, alias := FAMILIES[4], "LINKUP_SEARCH_PARAMS";
    assert f in FAMILIES && f.aliases[0] == alias;
    assert Prefixes(f)[1] == alias;
    FragmentAfterPrefix(Prefixes(f), alias, "depth");
  }

  lemma OldLeafIsReplaced(defaults: Store, listings: seq<seq<string>>)
    requires var s := map[OLD_ROW := Leaf("null"), FLAT_ROW := Leaf("1")];
             ListsAll(FAMILIES, Renamed(s, OLD_PREFIX, NEW_PREFIX), listings)
    ensures var s := map[OLD_ROW := Leaf("null"), FLAT_ROW := Leaf("1")];
            var after := Startup(FAMILIES, s, defaults, OLD_PREFIX, NEW_PREFIX, listings);
            FAMILIES[4].key in after && after[FAMILIES[4].key] != s[OLD_ROW]
  {
    var s := map[OLD_ROW := Leaf("null"), FLAT_ROW := Leaf("1")];
    TableIsUnambiguous();
    RenameIsOutside();
    OldRowMoves();
    FlatRowApplies();
    RowStays(s, OLD_PREFIX, NEW_PREFIX, FLAT_ROW);
    OldLeafSurvivesIff(FAMILIES, s, defaults, OLD_PREFIX, NEW_PREFIX, listings, OLD_ROW, 4);
  }

  // ---- The round trip for the table ----

  // The family's values are flattened into readable rows: an ordinary dictionary has no dots
  // in its keys; the fields of an API connection lie below it and split where printed.
  ghost predicate Flattenable(f: Family, t: Json) {
    match f.connectionFields
    case None => DotFree(t)
    case Some(fields) => forall q :: At(t, q).LeafHere? ==> |q| >= 2 && SplitsWherePrinted(fields, q[0], q[1..])
  }

  lemma ConnectionFieldsAre(i: nat)
    requires i < |FAMILIES|
    ensures FAMILIES[i].connectionFields == if i < 2 then Some(API_CONFIG_FIELDS) else None
  {
  }

  lemma FlattenableIsReadable(i: nat, prefix: string, t: Json)
    requires i < |FAMILIES| && prefix in Prefixes(FAMILIES[i])
    requires t.Dict? && Flattenable(FAMILIES[i], t)
    ensures Readable(FAMILIES[i], prefix, t)
  {
    var f := FAMILIES[i];
    TableIsUnambiguous();
    OneIsUnambiguous(FAMILIES, f);
    ConnectionFieldsAre(i);
    if i < 2 {
      FieldsAreNotEmpty();
      SplittableIsReadable(f, API_CONFIG_FIELDS, prefix, t);
    } else {
      DotFreeIsReadable(f, prefix, t);
    }
  }

  lemma OneIsUnambiguous(fams: seq<Family>, f: Family)
    requires Unambiguous(fams) && f in fams
    ensures Unambiguous([f])
  {
  }

  // Whichever of the application's dictionaries was flattened, under its key or its alias, one
  // repair of the whole store puts it back and does to every other key what it would do
  // without those rows.
  lemma ApplicationRepairUndoesFlattening(i: nat, prefix: string, known: set<string>, t: Json, rows: Store,
                                          others: Store, listings: seq<seq<string>>)
    requires i < |FAMILIES| && prefix in Prefixes(FAMILIES[i]) && forall k <- known :: !HasPrefix(prefix, k)
    requires t.Dict? && NoEmptyDicts(t) && Flattenable(FAMILIES[i], t)
    requires WalkedRows(t, t.fields.Keys, prefix, known, rows)
    requires (forall k <- others :: !Owns(FAMILIES[i], k)) && Current(others, FAMILIES[i]) == EMPTY
    requires ListsAll(FAMILIES, others + rows, listings)
    ensures var without := listings[i := []];
            && ListsAll(FAMILIES, others, without)
            && RepairAll(FAMILIES, others + rows, listings) ==
               RepairAll(FAMILIES, others, without)[FAMILIES[i].key := t]
    ensures forall k <- RepairAll(FAMILIES, others + rows, listings) :: !Owns(FAMILIES[i], k)
  {
    TableIsUnambiguous();
    FlattenableIsReadable(i, prefix, t);
    KeySample(i);
    AliasSample(i);
    PrefixesOf(i, prefix);
    RepairUndoesFlattening(FAMILIES, i, prefix, known, t, rows, others, listings);
    forall k | k in RepairAll(FAMILIES, others + rows, listings) ensures !Owns(FAMILIES[i], k) {
      NoFlattenedRowIsLeft(FAMILIES, i, prefix, known, t, rows, others, listings, k);
    }
  }
}
