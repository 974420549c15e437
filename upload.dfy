/** `serveUploadFile`: the upload handler. It reads the `myFile` field of the
    multipart form, stages it as `./tmpUpload/myFile.zip`, unzips it into
    `tmpUnzip`, aggregates the phrases found there and answers with the
    report. Whatever is thrown on the way becomes the body; the status is 200
    on every path. */
module Upload {
  import opened Common
  import opened FileTree
  import opened Extractor
  import opened Aggregator
  import Locator
  import opened Formatter
  import opened Http

  /** `unZipFromFile` applied to the staged archive: it throws, or yields a
      falsy result (`None`), or the listing of the extraction directory. */
  type Unzipper = seq<Byte> -> Outcome<Option<seq<Entry>>>

  /** The body `serveUploadFile` answers with, given how each foreign step
      turns out: `form` is the content of the `myFile` field, or what parsing
      the form or reaching the field threw; `write` is what writing the staging
      file did. Creating `tmpUpload` and removing `tmpUnzip` swallow their
      errors and do not appear. */
  function UploadBody(form: Outcome<seq<Byte>>, write: Outcome<()>, unzip: Unzipper,
                      parse: Parser): string
  {
    match form
    case Thrown(message) => message
    case Ok(archive) =>
      match write
      case Thrown(message) => message
      case Ok(_) =>
        match unzip(archive)
        case Thrown(message) => message
        case Ok(None) => ""
        case Ok(Some(root)) => Report(PhrasesByPath(root, parse))
  }

  /** `serveUploadFile`: `result` starts empty, is set to the report when the
      archive unzips, and to the message of whatever was thrown. */
  method ServeUploadFile(form: Outcome<seq<Byte>>, write: Outcome<()>, unzip: Unzipper,
                         parse: Parser) returns (response: Response)
    ensures response.status == 200
    ensures response.body == Text(UploadBody(form, write, unzip, parse))
  {
    var result := "";
    if form.Thrown? {
      result := form.message;
    } else if write.Thrown? {
      result := write.message;
    } else {
      var destPath := unzip(form.value);
      if destPath.Thrown? {
        result := destPath.message;
      } else if destPath.value.Some? {
        var phrasesByFilename := GetPhrasesByPath(destPath.value.value, parse);
        result := FormatReport(phrasesByFilename);
      }
    }
    response := Response(200, Text(result));
  }

  /** An archive without an `intents` directory gives the empty body. */
  lemma NoIntentsGivesEmptyBody(archive: seq<Byte>, unzip: Unzipper, parse: Parser,
                                root: seq<Entry>)
    requires unzip(archive) == Ok(Some(root))
    requires forall i :: 0 <= i < |root| ==> !Locator.IsIntentsDir(root[i])
    ensures UploadBody(Ok(archive), Ok(()), unzip, parse) == ""
  {
    Locator.LocateWithoutIntents(root);
  }

  /** One located file that cannot be read or parsed gives the empty body,
      whatever the other files hold. */
  lemma OneBadFileGivesEmptyBody(archive: seq<Byte>, unzip: Unzipper, parse: Parser,
                                 root: seq<Entry>, i: nat)
    requires unzip(archive) == Ok(Some(root))
    requires i < |Locator.Locate(root)|
    requires ReadPhrases(root, Locator.Locate(root)[i], parse).None?
    ensures UploadBody(Ok(archive), Ok(()), unzip, parse) == ""
  {
    OneFailureEmptiesAll(root, parse, i);
  }

  /** An archive whose `intents` directory holds one user-phrase file with the
      records "phrase one" and "phrase" + " two", beside a file of another
      kind, gives the two-line report of that file. */
  lemma SampleArchive(archive: seq<Byte>, unzip: Unzipper, parse: Parser,
                      sample: seq<Byte>, other: seq<Byte>)
    requires unzip(archive) == Ok(Some([
      Directory("intents", [
        File("sample_usersays_en.json", Some(sample)),
        File("sample.json", Some(other))])]))
    requires parse(sample) == Some([
      PhraseRecord([Fragment("phrase one")]),
      PhraseRecord([Fragment("phrase "), Fragment("two")])])
    ensures UploadBody(Ok(archive), Ok(()), unzip, parse)
            == "----> sample_usersays_en.json" + "\n" + "\"phrase one\" \"phrase two\""
  {
    var root := [Directory("intents", [File("sample_usersays_en.json", Some(sample)),
                                       File("sample.json", Some(other))])];
    var name := "sample_usersays_en.json";
    SampleLocate(sample, other);
    SamplePhrases();
    assert ReadFile(root, Locator.IntentsDir, name) == Some(sample);
    assert ReadPhrases(root, name, parse) == Some(["phrase one", "phrase two"]);
    assert [name][..0] == [];
    var phrases := ["phrase one", "phrase two"];
    assert ReadAll(root, [name][..0], parse) == Some([]);
    assert [name][0] == name;
    assert ReadPhrases(root, [name][0], parse) == Some(phrases);
    assert [] + [phrases] == [phrases];
    assert ReadAll(root, [name], parse) == Some([phrases]);
    assert [phrases][..0] == [];
    assert Assemble([name], [phrases]) == [Binding(name, phrases)];
    assert PhrasesByPath(root, parse) == [Binding(name, phrases)];
    SampleReport();
  }

  /** In the sample archive only the user-phrase file is located. */
  lemma SampleLocate(sample: seq<Byte>, other: seq<Byte>)
    ensures Locator.Locate([Directory("intents", [File("sample_usersays_en.json", Some(sample)),
                                                  File("sample.json", Some(other))])])
            == ["sample_usersays_en.json"]
  {
    var first := File("sample_usersays_en.json", Some(sample));
    var second := File("sample.json", Some(other));
    var root := [Directory("intents", [first, second])];
    assert "sample_usersays_en.json"[6..] == Locator.UserSaysSuffix;
    assert Locator.IsUserSaysFile(first);
    assert !Locator.IsUserSaysFile(second);
    assert [first, second][..1] == [first];
    assert [first][..0] == [];
    assert Locator.Select([first]) == [first.name];
    assert Locator.Select([first, second]) == Locator.Select([first]);
    assert root[..0] == [];
  }

  /** The sample's two records give the phrases "phrase one" and "phrase two". */
  lemma SamplePhrases()
    ensures Phrases([PhraseRecord([Fragment("phrase one")]),
                     PhraseRecord([Fragment("phrase "), Fragment("two")])])
            == ["phrase one", "phrase two"]
  {
    var doc := [PhraseRecord([Fragment("phrase one")]),
                PhraseRecord([Fragment("phrase "), Fragment("two")])];
    assert Texts(doc[0].data) == ["phrase one"];
    assert Phrase(doc[0]) == "phrase one";
    assert Texts(doc[1].data) == ["phrase ", "two"];
    assert ["phrase ", "two"][1..] == ["two"];
    assert Phrase(doc[1]) == "phrase " + "" + "two" == "phrase two";
    assert doc[1..][1..] == [];
  }

  /** The sample's table formats to its two lines. */
  lemma SampleReport()
    ensures Report([Binding("sample_usersays_en.json", ["phrase one", "phrase two"])])
            == "----> sample_usersays_en.json" + "\n" + "\"phrase one\" \"phrase two\""
  {
    ReportOfOneFile([Binding("sample_usersays_en.json", ["phrase one", "phrase two"])]);
    SampleLines();
  }

  /** The sample's header and phrase lines. */
  lemma SampleLines()
    ensures HeadLine("sample_usersays_en.json") == "----> sample_usersays_en.json"
    ensures PhraseLine(["phrase one", "phrase two"]) == "\"phrase one\" \"phrase two\""
  {
    PhraseLineAppend(["phrase one"], "phrase two");
    assert ["phrase one"] + ["phrase two"] == ["phrase one", "phrase two"];
  }
}
