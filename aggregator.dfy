/** The phrase aggregator: the rest of `getPhrasesByPath`. Every located file
    is read and parsed (`Promise.all` over the names), and the results are
    collected into an object keyed by file name (`reduce`). Any failure while
    reading or parsing rejects `Promise.all`; the `catch` then leaves the
    result as the empty object, so one bad file empties the whole mapping. */
module Aggregator {
  import opened Common
  import opened FileTree
  import opened Locator
  import opened Extractor

  /** One property of the result object: a file name and its phrases. */
  datatype Binding = Binding(key: string, phrases: seq<string>)

  /** A JavaScript object from file names to phrase lists, as its properties in
      iteration order. Properties of an object iterate in insertion order
      except for array-index names, and no name ending in `_usersays_en.json`
      is an array index, so insertion order is iteration order here. */
  type PhraseTable = seq<Binding>

  /** `JSON.parse(decoder.decode(bytes))` with its result read as a document;
      `None` when it throws or yields something without the expected shape. */
  type Parser = seq<Byte> -> Option<Document>

  /** The property names a `for...in` loop over the object visits, in order. */
  function Keys(t: PhraseTable): (keys: seq<string>)
    ensures |keys| == |t|
    ensures forall i :: 0 <= i < |t| ==> keys[i] == t[i].key
  {
    if |t| == 0 then [] else [t[0].key] + Keys(t[1..])
  }

  /** `t[k]`, `None` when `k` is not a property. */
  function Lookup(t: PhraseTable, k: string): Option<seq<string>>
  {
    if |t| == 0 then None
    else if t[0].key == k then Some(t[0].phrases)
    else Lookup(t[1..], k)
  }

  /** `t[k] = v`: an existing property keeps its place, a new one goes last. */
  function Set(t: PhraseTable, k: string, v: seq<string>): PhraseTable
  {
    if |t| == 0 then [Binding(k, v)]
    else if t[0].key == k then [Binding(k, v)] + t[1..]
    else [t[0]] + Set(t[1..], k, v)
  }

  /** The keys after an assignment: a new name is added last. */
  lemma SetKeys(t: PhraseTable, k: string, v: seq<string>)
    ensures Keys(Set(t, k, v)) == if k in Keys(t) then Keys(t) else Keys(t) + [k]
  {
    SetSpec(t, k, v);
    if k !in Keys(t) {
      assert Keys(t + [Binding(k, v)]) == Keys(t) + [k];
    }
  }

  /** Assigning a new property appends it; assigning an existing one leaves
      the keys as they were. Either way the property then holds `v` and every
      other property is unchanged. */
  lemma {:induction false} SetSpec(t: PhraseTable, k: string, v: seq<string>)
    ensures k !in Keys(t) ==> Set(t, k, v) == t + [Binding(k, v)]
    ensures k in Keys(t) ==> Keys(Set(t, k, v)) == Keys(t)
    ensures Lookup(Set(t, k, v), k) == Some(v)
    ensures forall k' :: k' != k ==> Lookup(Set(t, k, v), k') == Lookup(t, k')
  {
    if |t| > 0 && t[0].key != k {
      SetSpec(t[1..], k, v);
      assert Keys(t) == [t[0].key] + Keys(t[1..]);
      assert Keys(Set(t, k, v)) == [t[0].key] + Keys(Set(t[1..], k, v));
      if k !in Keys(t) {
        assert [t[0]] + (t[1..] + [Binding(k, v)]) == t + [Binding(k, v)];
      }
    }
  }

  /** One task of the fan-out: read `${path}/intents/${filename}`, parse it and
      extract its phrases; `None` when the read or the parse fails. */
  function ReadPhrases(root: seq<Entry>, filename: string, parse: Parser): Option<seq<string>>
  {
    match ReadFile(root, IntentsDir, filename)
    case None => None
    case Some(bytes) =>
      match parse(bytes)
      case None => None
      case Some(doc) => Some(Phrases(doc))
  }

  /** `Promise.all`: every task's phrases by index, or `None` when any task
      fails. */
  function ReadAll(root: seq<Entry>, files: seq<string>, parse: Parser): (r: Option<seq<seq<string>>>)
    ensures r.Some? ==> |r.value| == |files|
  {
    if |files| == 0 then Some([])
    else
      var n := |files| - 1;
      match (ReadAll(root, files[..n], parse), ReadPhrases(root, files[n], parse))
      case (Some(done), Some(phrases)) => Some(done + [phrases])
      case _ => None
  }

  /** A failing task makes `Promise.all` fail. */
  lemma {:induction false} ReadAllFailsOnTask(root: seq<Entry>, files: seq<string>, parse: Parser, i: nat)
    requires i < |files| && ReadPhrases(root, files[i], parse).None?
    ensures ReadAll(root, files, parse).None?
  {
    var n := |files| - 1;
    if i < n {
      assert files[..n][i] == files[i];
      ReadAllFailsOnTask(root, files[..n], parse, i);
    }
  }

  /** When every task succeeds, so does `Promise.all`. */
  lemma {:induction false} ReadAllSucceeds(root: seq<Entry>, files: seq<string>, parse: Parser)
    requires forall i :: 0 <= i < |files| ==> ReadPhrases(root, files[i], parse).Some?
    ensures ReadAll(root, files, parse).Some?
  {
    if |files| > 0 {
      var n := |files| - 1;
      var prefix := files[..n];
      forall i | 0 <= i < n
        ensures ReadPhrases(root, prefix[i], parse).Some?
      {
        assert prefix[i] == files[i];
      }
      ReadAllSucceeds(root, prefix, parse);
    }
  }

  /** `Promise.all` fails exactly when some task fails. */
  lemma ReadAllFails(root: seq<Entry>, files: seq<string>, parse: Parser)
    ensures ReadAll(root, files, parse).None? <==>
      exists i :: 0 <= i < |files| && ReadPhrases(root, files[i], parse).None?
  {
    if i :| 0 <= i < |files| && ReadPhrases(root, files[i], parse).None? {
      ReadAllFailsOnTask(root, files, parse, i);
    } else {
      ReadAllSucceeds(root, files, parse);
    }
  }

  /** When `Promise.all` succeeds it holds each task's result at that task's
      index. */
  lemma {:induction false} ReadAllValues(root: seq<Entry>, files: seq<string>, parse: Parser)
    requires ReadAll(root, files, parse).Some?
    ensures forall i :: 0 <= i < |files| ==>
      ReadPhrases(root, files[i], parse) == Some(ReadAll(root, files, parse).value[i])
  {
    if |files| > 0 {
      var n := |files| - 1;
      var prefix := files[..n];
      ReadAllValues(root, prefix, parse);
      assert forall i :: 0 <= i < n ==> prefix[i] == files[i];
    }
  }

  /** The `reduce` that assigns `acc[files[i]] = all[i]` for each index in turn. */
  function Assemble(files: seq<string>, all: seq<seq<string>>): PhraseTable
    requires |files| == |all|
  {
    if |files| == 0 then []
    else
      var n := |files| - 1;
      Set(Assemble(files[..n], all[..n]), files[n], all[n])
  }

  /** Proof step for `FillByIndex`: the assembled prefix grows by one
      assignment. */
  lemma AssembleStep(files: seq<string>, all: seq<seq<string>>, i: nat)
    requires |files| == |all| && i < |files|
    ensures Assemble(files[..i + 1], all[..i + 1]) == Set(Assemble(files[..i], all[..i]), files[i], all[i])
  {
    assert files[..i + 1][..i] == files[..i];
    assert all[..i + 1][..i] == all[..i];
  }

  /** The assembled object has a property for each assigned name, and no
      other. */
  lemma {:induction false} AssembleKeysMembership(files: seq<string>, all: seq<seq<string>>)
    requires |files| == |all|
    ensures forall k :: k in Keys(Assemble(files, all)) <==> k in files
  {
    if |files| > 0 {
      var n := |files| - 1;
      var before := Keys(Assemble(files[..n], all[..n]));
      AssembleKeysMembership(files[..n], all[..n]);
      SetKeys(Assemble(files[..n], all[..n]), files[n], all[n]);
      assert files == files[..n] + [files[n]];
      MembershipStep(before, Keys(Assemble(files, all)), files[..n], files[n]);
    }
  }

  /** One assignment's effect on the key set, stated on plain sequences so
      that the solver does not unfold `Assemble` while proving it. */
  lemma MembershipStep(before: seq<string>, after: seq<string>, names: seq<string>, x: string)
    requires forall k :: k in before <==> k in names
    requires after == if x in before then before else before + [x]
    ensures forall k :: k in after <==> k in names + [x]
  {
    forall k
      ensures k in after <==> k in names + [x]
    {
      assert k in names + [x] <==> k in names || k == x;
    }
  }

  /** The assembled object has each assigned name once. */
  lemma {:induction false} AssembleKeysDistinct(files: seq<string>, all: seq<seq<string>>)
    requires |files| == |all|
    ensures Distinct(Keys(Assemble(files, all)))
  {
    if |files| > 0 {
      var n := |files| - 1;
      var before := Keys(Assemble(files[..n], all[..n]));
      AssembleKeysDistinct(files[..n], all[..n]);
      SetKeys(Assemble(files[..n], all[..n]), files[n], all[n]);
      if files[n] !in before {
        DistinctAppend(before, files[n]);
      }
    }
  }

  /** The assembled object has each assigned name once, and no other. */
  lemma AssembleKeys(files: seq<string>, all: seq<seq<string>>)
    requires |files| == |all|
    ensures Distinct(Keys(Assemble(files, all)))
    ensures forall k :: k in Keys(Assemble(files, all)) <==> k in files
  {
    AssembleKeysMembership(files, all);
    AssembleKeysDistinct(files, all);
  }

  /** Each name maps to the phrases of the last index that assigned it. */
  lemma {:induction false} AssembleLookup(files: seq<string>, all: seq<seq<string>>, i: nat)
    requires |files| == |all|
    requires i < |files|
    requires forall j :: i < j < |files| ==> files[j] != files[i]
    ensures Lookup(Assemble(files, all), files[i]) == Some(all[i])
  {
    var n := |files| - 1;
    var before := Assemble(files[..n], all[..n]);
    SetLookup(before, files[n], all[n], files[i]);
    if i < n {
      AssembleLookup(files[..n], all[..n], i);
    }
  }

  /** Looking one name up after an assignment. */
  lemma SetLookup(t: PhraseTable, k: string, v: seq<string>, k': string)
    ensures Lookup(Set(t, k, v), k') == if k' == k then Some(v) else Lookup(t, k')
  {
    SetSpec(t, k, v);
  }

  /** With distinct names, the assembled object holds the names in the order
      they were given, each with the phrases of the same index. */
  lemma {:induction false} AssembleDistinct(files: seq<string>, all: seq<seq<string>>)
    requires |files| == |all|
    requires Distinct(files)
    ensures |Assemble(files, all)| == |files|
    ensures forall i :: 0 <= i < |files| ==> Assemble(files, all)[i] == Binding(files[i], all[i])
  {
    if |files| > 0 {
      var n := |files| - 1;
      var before := Assemble(files[..n], all[..n]);
      DistinctPrefix(files, n);
      AssembleDistinct(files[..n], all[..n]);
      ZipKeys(before, files[..n], all[..n]);
      SetFresh(before, files[n], all[n]);
      ZipSnoc(before, files, all);
    }
  }

  /** A table that pairs names with values index by index has those names as
      its keys. */
  lemma ZipKeys(t: PhraseTable, files: seq<string>, all: seq<seq<string>>)
    requires |t| == |files| == |all|
    requires forall i :: 0 <= i < |files| ==> t[i] == Binding(files[i], all[i])
    ensures Keys(t) == files
  {
  }

  /** Assigning a name that is not yet a key appends its binding. */
  lemma SetFresh(t: PhraseTable, k: string, v: seq<string>)
    requires k !in Keys(t)
    ensures Set(t, k, v) == t + [Binding(k, v)]
  {
    SetSpec(t, k, v);
  }

  /** Appending the last pair to a zip of the prefixes gives the zip of the
      whole sequences. */
  lemma ZipSnoc(t: PhraseTable, files: seq<string>, all: seq<seq<string>>)
    requires |files| == |all| > 0
    requires |t| == |files| - 1
    requires forall i :: 0 <= i < |t| ==> t[i] == Binding(files[..|t|][i], all[..|t|][i])
    ensures forall i :: 0 <= i < |files| ==>
      (t + [Binding(files[|t|], all[|t|])])[i] == Binding(files[i], all[i])
  {
  }

  /** What `getPhrasesByPath` resolves to. */
  function PhrasesByPath(root: seq<Entry>, parse: Parser): PhraseTable
  {
    var files := Locate(root);
    match ReadAll(root, files, parse)
    case None => []
    case Some(all) => Assemble(files, all)
  }

  /** The `reduce` of `getPhrasesByPath`: fill `acc` one index at a time. */
  method FillByIndex(userSaysFiles: seq<string>, allPhrases: seq<seq<string>>)
    returns (acc: PhraseTable)
    requires |userSaysFiles| == |allPhrases|
    ensures acc == Assemble(userSaysFiles, allPhrases)
  {
    acc := [];
    var index := 0;
    while index < |userSaysFiles|
      invariant 0 <= index <= |userSaysFiles|
      invariant acc == Assemble(userSaysFiles[..index], allPhrases[..index])
    {
      AssembleStep(userSaysFiles, allPhrases, index);
      acc := Set(acc, userSaysFiles[index], allPhrases[index]);
      index := index + 1;
    }
    assert userSaysFiles[..index] == userSaysFiles && allPhrases[..index] == allPhrases;
  }

  /** `getPhrasesByPath`: locate, read and parse everything, then fill the
      result; it stays empty when `Promise.all` rejects. */
  method GetPhrasesByPath(root: seq<Entry>, parse: Parser) returns (phrasesByFilename: PhraseTable)
    ensures phrasesByFilename == PhrasesByPath(root, parse)
  {
    phrasesByFilename := [];
    var userSaysFiles := LocateUserSaysFiles(root);
    var allPhrases := ReadAll(root, userSaysFiles, parse);
    if allPhrases.Some? {
      phrasesByFilename := FillByIndex(userSaysFiles, allPhrases.value);
    }
  }

  /** One file that cannot be read or parsed empties the whole mapping. */
  lemma OneFailureEmptiesAll(root: seq<Entry>, parse: Parser, i: nat)
    requires i < |Locate(root)|
    requires ReadPhrases(root, Locate(root)[i], parse).None?
    ensures PhrasesByPath(root, parse) == []
  {
    ReadAllFails(root, Locate(root), parse);
  }

  /** The mapping is empty exactly when nothing is located or some located file
      fails; there is never a partial result. */
  lemma EmptyMappingIff(root: seq<Entry>, parse: Parser)
    ensures PhrasesByPath(root, parse) == [] <==>
      Locate(root) == [] ||
      exists i :: 0 <= i < |Locate(root)| && ReadPhrases(root, Locate(root)[i], parse).None?
    ensures PhrasesByPath(root, parse) != [] ==>
      forall k :: k in Keys(PhrasesByPath(root, parse)) <==> k in Locate(root)
  {
    var files := Locate(root);
    ReadAllFails(root, files, parse);
    if ReadAll(root, files, parse).Some? {
      AssembleKeys(files, ReadAll(root, files, parse).value);
      if files != [] {
        assert files[0] in Keys(PhrasesByPath(root, parse));
      }
    }
  }

  /** When every located file is read and parsed and no name is located twice,
      the keys are the located names in locate order and each maps to the
      phrases of the file at the same index. */
  lemma AllFilesParsed(root: seq<Entry>, parse: Parser)
    requires Distinct(Locate(root))
    requires forall i :: 0 <= i < |Locate(root)| ==> ReadPhrases(root, Locate(root)[i], parse).Some?
    ensures Keys(PhrasesByPath(root, parse)) == Locate(root)
    ensures forall i :: 0 <= i < |Locate(root)| ==>
      PhrasesByPath(root, parse)[i].phrases == ReadPhrases(root, Locate(root)[i], parse).value
  {
    var files := Locate(root);
    ReadAllFails(root, files, parse);
    ReadAllValues(root, files, parse);
    AssembleDistinct(files, ReadAll(root, files, parse).value);
  }

  /** The property a readable, parsable file yields: its name and the phrases
      of its records. */
  predicate HoldsPhrasesOf(b: Binding, e: Entry, parse: Parser)
  {
    && e.File? && e.content.Some? && parse(e.content.value).Some?
    && b == Binding(e.name, Phrases(parse(e.content.value).value))
  }

  /** Reading a file through its path reads the entry's own content. */
  lemma ReadPhrasesOfEntry(root: seq<Entry>, parse: Parser, e: Entry)
    requires e.File?
    requires ReadFile(root, IntentsDir, e.name) == e.content
    requires ReadPhrases(root, e.name, parse).Some?
    ensures HoldsPhrasesOf(Binding(e.name, ReadPhrases(root, e.name, parse).value), e, parse)
  {
  }

  /** The same on a real file system, stated about the directory entries: the
      m-th property is the m-th user-phrase file of the `intents` directory,
      with the phrases of that file's records. */
  lemma FileSystemMapping(root: seq<Entry>, parse: Parser, k: nat)
    requires UniqueNames(root)
    requires k < |root| && IsIntentsDir(root[k]) && UniqueNames(root[k].children)
    requires forall i :: 0 <= i < |Locate(root)| ==> ReadPhrases(root, Locate(root)[i], parse).Some?
    ensures |PhrasesByPath(root, parse)| == |SelectedIndices(root[k].children)|
    ensures forall m :: 0 <= m < |SelectedIndices(root[k].children)| ==>
      && SelectedIndices(root[k].children)[m] < |root[k].children|
      && IsUserSaysFile(root[k].children[SelectedIndices(root[k].children)[m]])
      && HoldsPhrasesOf(PhrasesByPath(root, parse)[m],
                        root[k].children[SelectedIndices(root[k].children)[m]], parse)
  {
    var listing := root[k].children;
    var idx := SelectedIndices(listing);
    var t := PhrasesByPath(root, parse);
    LocateIntents(root, k);
    SelectAtIndices(listing);
    SelectDistinct(listing);
    AllFilesParsed(root, parse);
    forall m | 0 <= m < |idx|
      ensures idx[m] < |listing| && IsUserSaysFile(listing[idx[m]])
      ensures HoldsPhrasesOf(t[m], listing[idx[m]], parse)
    {
      LocatedFileIsRead(root, k, m);
      var e := listing[idx[m]];
      assert Locate(root)[m] == e.name;
      ReadPhrasesOfEntry(root, parse, e);
      assert t[m].key == Keys(t)[m];
      assert t[m] == Binding(e.name, ReadPhrases(root, e.name, parse).value);
    }
  }
}
