/** The phrase extractor: what `getPhrasesByPath` does with one parsed intent
    file. `JSON.parse` and the UTF-8 decoding before it are not modelled; the
    parsed document is given as an ordered sequence of phrase records. */
module Extractor {
  import opened Common

  /** One element of a record's `data` array: only its `text` is used. */
  datatype Fragment = Fragment(text: string)

  /** One element of the parsed top-level array. */
  datatype PhraseRecord = PhraseRecord(data: seq<Fragment>)

  /** A parsed intent file. */
  type Document = seq<PhraseRecord>

  /** The `text` values of the fragments, in fragment order. */
  function Texts(fragments: seq<Fragment>): (texts: seq<string>)
    ensures |texts| == |fragments|
    ensures forall k :: 0 <= k < |fragments| ==> texts[k] == fragments[k].text
  {
    if |fragments| == 0 then [] else [fragments[0].text] + Texts(fragments[1..])
  }

  /** `phrase.data.map(data => data.text).join('')`. */
  function Phrase(r: PhraseRecord): string
  {
    Join(Texts(r.data), "")
  }

  /** `phrases.map(...)`: one phrase per record. */
  function Phrases(doc: Document): seq<string>
  {
    if |doc| == 0 then [] else [Phrase(doc[0])] + Phrases(doc[1..])
  }

  /** Exactly one phrase per record, in record order. */
  lemma {:induction false} PhrasesInRecordOrder(doc: Document)
    ensures |Phrases(doc)| == |doc|
    ensures forall i :: 0 <= i < |doc| ==> Phrases(doc)[i] == Phrase(doc[i])
  {
    if |doc| > 0 {
      PhrasesInRecordOrder(doc[1..]);
    }
  }

  /** A phrase is its fragments' texts concatenated in order with nothing
      between them; a record with no fragments gives the empty phrase. */
  lemma PhraseIsConcatenation(r: PhraseRecord)
    ensures Phrase(r) == Concat(Texts(r.data))
    ensures r.data == [] ==> Phrase(r) == ""
    ensures |Phrase(r)| == TotalLength(Texts(r.data))
  {
    JoinEmptySeparator(Texts(r.data));
    ConcatLength(Texts(r.data));
  }

  /** Splitting a record's fragments splits its phrase at the same place. */
  lemma PhraseOfConcatenatedFragments(a: seq<Fragment>, b: seq<Fragment>)
    ensures Phrase(PhraseRecord(a + b)) == Phrase(PhraseRecord(a)) + Phrase(PhraseRecord(b))
  {
    TextsAppend(a, b);
    JoinEmptyAppend(Texts(a), Texts(b));
  }

  /** The texts of appended fragments are the appended texts. */
  lemma TextsAppend(a: seq<Fragment>, b: seq<Fragment>)
    ensures Texts(a + b) == Texts(a) + Texts(b)
  {
    var t := Texts(a + b);
    forall k | 0 <= k < |a| + |b|
      ensures t[k] == (Texts(a) + Texts(b))[k]
    {
      if k < |a| {
        assert (a + b)[k] == a[k];
      } else {
        assert (a + b)[k] == b[k - |a|];
      }
    }
  }

  /** Records with fragments ["a", "b"] and ["c"] give the phrases ["ab", "c"]. */
  lemma TwoRecordsExample()
    ensures Phrases([PhraseRecord([Fragment("a"), Fragment("b")]), PhraseRecord([Fragment("c")])])
            == ["ab", "c"]
  {
    var doc := [PhraseRecord([Fragment("a"), Fragment("b")]), PhraseRecord([Fragment("c")])];
    assert Texts(doc[0].data) == ["a", "b"];
    assert ["a", "b"][1..] == ["b"];
    assert Phrase(doc[0]) == "a" + "" + "b" == "ab";
    assert Texts(doc[1].data) == ["c"];
    assert Phrases(doc[1..]) == [Phrase(doc[1])];
  }
}
