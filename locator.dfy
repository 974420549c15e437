/** The intent-file locator: the first half of `getPhrasesByPath`, which walks
    the extraction root's listing and collects the names of the files that
    hold the user phrases of an intent. */
module Locator {
  import opened Common
  import opened FileTree

  /** The one directory of the root that is searched. */
  const IntentsDir: string := "intents"

  /** The name ending that marks a file of English user phrases. */
  const UserSaysSuffix: string := "_usersays_en.json"

  predicate IsIntentsDir(e: Entry)
  {
    e.Directory? && e.name == IntentsDir
  }

  predicate IsUserSaysFile(e: Entry)
  {
    e.File? && EndsWith(e.name, UserSaysSuffix)
  }

  /** The names of the user-phrase files of one listing, in listing order.
      Nothing below the listing is looked at. */
  function Select(listing: seq<Entry>): seq<string>
  {
    if |listing| == 0 then []
    else
      var last := listing[|listing| - 1];
      Select(listing[..|listing| - 1]) + (if IsUserSaysFile(last) then [last.name] else [])
  }

  /** What one entry of the root contributes. */
  function Contribution(e: Entry): seq<string>
  {
    if IsIntentsDir(e) then Select(e.children) else []
  }

  /** The located files: the contributions of the root's entries, in order. */
  function Locate(root: seq<Entry>): seq<string>
  {
    if |root| == 0 then []
    else Locate(root[..|root| - 1]) + Contribution(root[|root| - 1])
  }

  /** The scan of `getPhrasesByPath`: two nested loops over the listings that
      push every selected name onto `userSaysFiles`. */
  method LocateUserSaysFiles(root: seq<Entry>) returns (userSaysFiles: seq<string>)
    ensures userSaysFiles == Locate(root)
  {
    userSaysFiles := [];
    var i := 0;
    while i < |root|
      invariant 0 <= i <= |root|
      invariant userSaysFiles == Locate(root[..i])
    {
      var dirEntry := root[i];
      assert root[..i + 1][..i] == root[..i];
      if dirEntry.Directory? && dirEntry.name == IntentsDir {
        var listing := dirEntry.children;
        var j := 0;
        while j < |listing|
          invariant 0 <= j <= |listing|
          invariant userSaysFiles == Locate(root[..i]) + Select(listing[..j])
        {
          var dirEntry2 := listing[j];
          assert listing[..j + 1][..j] == listing[..j];
          if dirEntry2.File? && EndsWith(dirEntry2.name, UserSaysSuffix) {
            userSaysFiles := userSaysFiles + [dirEntry2.name];
          }
          j := j + 1;
        }
        assert listing[..j] == listing;
      }
      i := i + 1;
    }
    assert root[..i] == root;
  }

  /** The positions of the user-phrase files of a listing, in increasing order. */
  function SelectedIndices(listing: seq<Entry>): seq<nat>
  {
    if |listing| == 0 then []
    else
      var n := |listing| - 1;
      SelectedIndices(listing[..n]) + (if IsUserSaysFile(listing[n]) then [n] else [])
  }

  /** The m-th selected name is that of the user-phrase file at the m-th
      selected position. */
  lemma {:induction false} SelectAtIndices(listing: seq<Entry>)
    ensures |Select(listing)| == |SelectedIndices(listing)|
    ensures forall m :: 0 <= m < |SelectedIndices(listing)| ==>
      SelectedIndices(listing)[m] < |listing|
      && IsUserSaysFile(listing[SelectedIndices(listing)[m]])
      && Select(listing)[m] == listing[SelectedIndices(listing)[m]].name
  {
    if |listing| > 0 {
      var n := |listing| - 1;
      var prefix := listing[..n];
      SelectAtIndices(prefix);
      var idx0 := SelectedIndices(prefix);
      assert forall m :: 0 <= m < |idx0| ==> prefix[idx0[m]] == listing[idx0[m]];
    }
  }

  /** The selected positions increase strictly and stay inside the listing. */
  lemma {:induction false} SelectedIndicesIncrease(listing: seq<Entry>)
    ensures forall m :: 0 <= m < |SelectedIndices(listing)| ==> SelectedIndices(listing)[m] < |listing|
    ensures forall m, m' :: 0 <= m < m' < |SelectedIndices(listing)| ==>
      SelectedIndices(listing)[m] < SelectedIndices(listing)[m']
  {
    if |listing| > 0 {
      SelectedIndicesIncrease(listing[..|listing| - 1]);
    }
  }

  /** Every user-phrase file of the listing is selected. */
  lemma {:induction false} SelectedIndicesComplete(listing: seq<Entry>)
    ensures forall j :: 0 <= j < |listing| && IsUserSaysFile(listing[j]) ==> j in SelectedIndices(listing)
  {
    if |listing| > 0 {
      var n := |listing| - 1;
      SelectedIndicesComplete(listing[..n]);
      assert forall j :: 0 <= j < n ==> listing[..n][j] == listing[j];
    }
  }

  /** Selection is an order-preserving filter: the selected names are those of
      exactly the user-phrase files, at strictly increasing positions. */
  lemma SelectIsFilter(listing: seq<Entry>)
    ensures var idx := SelectedIndices(listing);
      && |Select(listing)| == |idx|
      && (forall m :: 0 <= m < |idx| ==>
            idx[m] < |listing| && IsUserSaysFile(listing[idx[m]])
            && Select(listing)[m] == listing[idx[m]].name)
      && (forall m, m' :: 0 <= m < m' < |idx| ==> idx[m] < idx[m'])
      && (forall j :: 0 <= j < |listing| && IsUserSaysFile(listing[j]) ==> j in idx)
  {
    SelectAtIndices(listing);
    SelectedIndicesIncrease(listing);
    SelectedIndicesComplete(listing);
  }

  /** Files of an `intents` listing that fail the test are never selected. */
  lemma {:induction false} SelectMembership(listing: seq<Entry>, name: string)
    ensures name in Select(listing) <==>
      exists j :: 0 <= j < |listing| && IsUserSaysFile(listing[j]) && listing[j].name == name
  {
    if |listing| > 0 {
      var n := |listing| - 1;
      var prefix := listing[..n];
      SelectMembership(prefix, name);
      if name in Select(prefix) {
        var j :| 0 <= j < |prefix| && IsUserSaysFile(prefix[j]) && prefix[j].name == name;
        assert listing[j] == prefix[j];
      }
      if exists j :: 0 <= j < |listing| && IsUserSaysFile(listing[j]) && listing[j].name == name {
        var j :| 0 <= j < |listing| && IsUserSaysFile(listing[j]) && listing[j].name == name;
        if j < n {
          assert prefix[j] == listing[j];
        }
      }
    }
  }

  /** A name is located exactly when some entry of the root contributes it. */
  lemma {:induction false} LocateContributions(root: seq<Entry>, name: string)
    ensures name in Locate(root) <==>
      exists i :: 0 <= i < |root| && name in Contribution(root[i])
  {
    if |root| > 0 {
      var n := |root| - 1;
      var prefix := root[..n];
      LocateContributions(prefix, name);
      assert forall i :: 0 <= i < n ==> prefix[i] == root[i];
    }
  }

  /** A name is located exactly when it is the name of a user-phrase file
      directly inside an entry of the root that is a directory named `intents`. */
  lemma LocateMembership(root: seq<Entry>, name: string)
    ensures name in Locate(root) <==>
      exists i, j :: 0 <= i < |root| && IsIntentsDir(root[i]) && 0 <= j < |root[i].children|
                     && IsUserSaysFile(root[i].children[j]) && root[i].children[j].name == name
  {
    LocateContributions(root, name);
    forall i | 0 <= i < |root| && IsIntentsDir(root[i]) {
      SelectMembership(root[i].children, name);
    }
  }

  /** Without an `intents` directory (none at all, or an `intents` entry that is
      not a directory) nothing is located, and that is not an error. */
  lemma {:induction false} LocateWithoutIntents(root: seq<Entry>)
    requires forall i :: 0 <= i < |root| ==> !IsIntentsDir(root[i])
    ensures Locate(root) == []
  {
    if |root| > 0 {
      LocateWithoutIntents(root[..|root| - 1]);
    }
  }

  /** The root of a real file system has one `intents` directory at most, and
      then the located files are the selection of its listing. */
  lemma {:induction false} LocateIntents(root: seq<Entry>, k: nat)
    requires UniqueNames(root)
    requires k < |root| && IsIntentsDir(root[k])
    ensures Locate(root) == Select(root[k].children)
  {
    var n := |root| - 1;
    var prefix := root[..n];
    assert UniqueNames(prefix);
    if k == n {
      assert forall i :: 0 <= i < |prefix| ==> prefix[i].name != IntentsDir;
      LocateWithoutIntents(prefix);
    } else {
      LocateIntents(prefix, k);
      assert root[n].name != IntentsDir;
    }
  }

  /** Names selected from a listing with unique names are distinct. */
  lemma SelectDistinct(listing: seq<Entry>)
    requires UniqueNames(listing)
    ensures Distinct(Select(listing))
  {
    SelectIsFilter(listing);
  }

  /** On a real file system every located name is located once. */
  lemma LocateDistinct(root: seq<Entry>)
    requires UniqueNames(root)
    requires forall i :: 0 <= i < |root| && IsIntentsDir(root[i]) ==> UniqueNames(root[i].children)
    ensures Distinct(Locate(root))
  {
    if k :| 0 <= k < |root| && IsIntentsDir(root[k]) {
      LocateIntents(root, k);
      SelectDistinct(root[k].children);
    } else {
      LocateWithoutIntents(root);
    }
  }

  /** On a real file system, reading `${root}/intents/${name}` for the m-th
      located name reads the m-th selected file of the `intents` listing. */
  lemma LocatedFileIsRead(root: seq<Entry>, k: nat, m: nat)
    requires UniqueNames(root)
    requires k < |root| && IsIntentsDir(root[k]) && UniqueNames(root[k].children)
    requires m < |Locate(root)|
    ensures m < |SelectedIndices(root[k].children)|
    ensures var listing := root[k].children;
      var j := SelectedIndices(listing)[m];
      && j < |listing| && IsUserSaysFile(listing[j])
      && Locate(root)[m] == listing[j].name
      && ReadFile(root, IntentsDir, Locate(root)[m]) == listing[j].content
  {
    var listing := root[k].children;
    LocateIntents(root, k);
    SelectIsFilter(listing);
    FindUnique(root, k);
    FindUnique(listing, SelectedIndices(listing)[m]);
  }
}
