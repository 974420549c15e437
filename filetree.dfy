/** The extracted archive as the server sees it through `Deno.readDir` and
    `Deno.readFile`: a listing of entries, in the order the directory listing
    yields them. */
module FileTree {
  import opened Common

  /** One directory entry. A regular file carries what reading it yields
      (`None` when the read fails); a directory carries its own listing; any
      other entry (a symbolic link, a device) carries only its name. */
  datatype Entry =
    | File(name: string, content: Option<seq<Byte>>)
    | Directory(name: string, children: seq<Entry>)
    | Other(name: string)

  /** No two entries of one listing share a name, as on any file system. */
  predicate UniqueNames(listing: seq<Entry>)
  {
    forall i, j :: 0 <= i < j < |listing| ==> listing[i].name != listing[j].name
  }

  /** The entry a path component names in a listing. */
  function Find(listing: seq<Entry>, name: string): (r: Option<Entry>)
    ensures r.Some? ==> r.value in listing && r.value.name == name
    ensures r.None? ==> forall i :: 0 <= i < |listing| ==> listing[i].name != name
  {
    if |listing| == 0 then None
    else if listing[0].name == name then Some(listing[0])
    else Find(listing[1..], name)
  }

  /** In a listing with unique names the entry with a given name is found. */
  lemma {:induction false} FindUnique(listing: seq<Entry>, i: nat)
    requires UniqueNames(listing)
    requires i < |listing|
    ensures Find(listing, listing[i].name) == Some(listing[i])
  {
    if i > 0 {
      assert listing[0].name != listing[i].name;
      assert UniqueNames(listing[1..]) by {
        forall a, b | 0 <= a < b < |listing[1..]|
          ensures listing[1..][a].name != listing[1..][b].name
        {
          assert listing[1..][a] == listing[a + 1] && listing[1..][b] == listing[b + 1];
        }
      }
      FindUnique(listing[1..], i - 1);
    }
  }

  /** `Deno.readFile(`${root}/${dir}/${filename}`)`: the bytes of the regular
      file at that path, or `None` when the read fails (a component is missing
      or of the wrong kind, or the file cannot be read). */
  function ReadFile(root: seq<Entry>, dir: string, filename: string): (r: Option<seq<Byte>>)
    ensures r.Some? ==> exists d, f :: d in root && d.Directory? && d.name == dir
                                     && f in d.children && f.File? && f.name == filename
                                     && f.content == r
  {
    match Find(root, dir)
    case Some(Directory(_, children)) =>
      (match Find(children, filename)
       case Some(File(_, content)) => content
       case _ => None)
    case _ => None
  }
}
