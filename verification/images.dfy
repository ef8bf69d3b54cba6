/** The image-folder encoder of services/encode_images.py: every image file
    of a folder, chosen by its extension regardless of case, is encoded and
    stored under its bare file name, in sorted file-name order. */
module Images {
  import opened Wrappers
  import opened Strings

  const Extensions: seq<string> := [".png", ".jpg", ".jpeg", ".bmp", ".gif"]

  /** A file name is an image name when its lower-cased form ends with one
      of the image extensions. */
  predicate IsImageName(name: string) {
    exists e :: e in Extensions && EndsWith(Lower(name), e)
  }

  /** Character by character: a name is an image name iff its last
      characters, each lower-cased, spell one of the extensions. */
  lemma ImageNameBySuffix(name: string)
    ensures IsImageName(name) <==>
              exists e :: e in Extensions && |e| <= |name| &&
                forall k :: 0 <= k < |e| ==> LowerChar(name[|name| - |e| + k]) == e[k]
  {
    var lowered := Lower(name);
    forall e | e in Extensions
      ensures EndsWith(lowered, e) <==>
                |e| <= |name| && forall k :: 0 <= k < |e| ==> LowerChar(name[|name| - |e| + k]) == e[k]
    {
      if |e| <= |name| {
        var tail := lowered[|name| - |e|..];
        assert |tail| == |e|;
        assert forall k :: 0 <= k < |e| ==> tail[k] == LowerChar(name[|name| - |e| + k]);
      }
    }
  }

  /** The test looks only at the lower-cased name, so names that differ
      only in the case of ASCII letters are treated alike. */
  lemma ImageNameIgnoresCase(a: string, b: string)
    requires Lower(a) == Lower(b)
    ensures IsImageName(a) <==> IsImageName(b)
  {
  }

  /** An upper-case extension matches; an image extension followed by
      another one does not. */
  lemma ImageNameExamples()
    ensures IsImageName("A.PNG")
    ensures !IsImageName("x.jpeg.txt")
  {
    assert Lower("A.PNG") == "a.png";
    assert EndsWith(Lower("A.PNG"), ".png");
    var lowered := Lower("x.jpeg.txt");
    assert lowered == "x.jpeg.txt";
    forall e | e in Extensions
      ensures !EndsWith(lowered, e)
    {
      assert lowered[|lowered| - 1] == 't';
    }
  }

  /** `os.path.join(folder, name)` for a bare file name. */
  function Join(folder: string, name: string): string {
    if folder == [] || folder[|folder| - 1] == '/' then folder + name else folder + "/" + name
  }

  /** The joined path is the folder, one `/` unless the folder is empty or
      already ends with one, then the name. */
  lemma JoinShape(folder: string, name: string)
    ensures var path := Join(folder, name);
            && |folder| <= |path| && path[..|folder|] == folder
            && EndsWith(path, name)
            && |path| - |folder| - |name| == (if folder == [] || folder[|folder| - 1] == '/' then 0 else 1)
            && (folder != [] ==> path[|path| - |name| - 1] == '/')
  {
  }

  /** One dictionary entry: a file name and its encoding. */
  datatype Entry = Entry(name: string, encoding: string)

  predicate HasKey(entries: seq<Entry>, k: string) {
    exists i :: 0 <= i < |entries| && entries[i].name == k
  }

  /** Dictionary assignment `d[k] = v` on an insertion-ordered dictionary:
      an existing key keeps its place and takes the new value, a new key
      goes last. */
  function Put(entries: seq<Entry>, k: string, v: string): (r: seq<Entry>)
    ensures !HasKey(entries, k) ==> r == entries + [Entry(k, v)]
    ensures HasKey(entries, k) && (forall i :: 0 <= i < |entries| && entries[i].name == k ==> entries[i].encoding == v)
            ==> r == entries
    decreases |entries|
  {
    if entries == [] then [Entry(k, v)]
    else if entries[0].name == k then [Entry(k, v)] + entries[1..]
    else
      var rest := Put(entries[1..], k, v);
      assert HasKey(entries, k) ==> HasKey(entries[1..], k) by {
        if HasKey(entries, k) {
          var i :| 0 <= i < |entries| && entries[i].name == k;
          assert entries[1..][i - 1].name == k;
        }
      }
      assert !HasKey(entries[1..], k) ==> !HasKey(entries, k) by {
        if HasKey(entries[1..], k) {
          var i :| 0 <= i < |entries[1..]| && entries[1..][i].name == k;
          assert entries[i + 1].name == k;
        }
      }
      [entries[0]] + rest
  }

  /** Assignment to a present key updates it in place: the length stays,
      the first entry under the key (in a dictionary the only one) takes
      the new value, and every other entry stays as it was. */
  lemma {:induction false} PutUpdatesInPlace(entries: seq<Entry>, k: string, v: string)
    requires HasKey(entries, k)
    ensures var r := Put(entries, k, v);
            && |r| == |entries|
            && (forall i :: 0 <= i < |entries| ==> r[i] == entries[i] || (entries[i].name == k && r[i] == Entry(k, v)))
            && exists i :: 0 <= i < |r| && r[i] == Entry(k, v)
    decreases |entries|
  {
    var r := Put(entries, k, v);
    if entries[0].name == k {
      assert r[0] == Entry(k, v);
    } else {
      var j :| 0 <= j < |entries| && entries[j].name == k;
      assert entries[1..][j - 1].name == k;
      PutUpdatesInPlace(entries[1..], k, v);
      var rest := Put(entries[1..], k, v);
      assert r == [entries[0]] + rest;
      var m :| 0 <= m < |rest| && rest[m] == Entry(k, v);
      assert r[m + 1] == Entry(k, v);
    }
  }

  /** Keys strictly increase along the entries. */
  predicate StrictlyIncreasing(entries: seq<Entry>) {
    forall i, j :: 0 <= i < j < |entries| ==> LessEq(entries[i].name, entries[j].name) && entries[i].name != entries[j].name
  }

  /** Every key is at most `bound`. */
  predicate BoundedBy(entries: seq<Entry>, bound: string) {
    forall j :: 0 <= j < |entries| ==> LessEq(entries[j].name, bound)
  }

  lemma BoundAdvances(entries: seq<Entry>, bound: string, next: string)
    requires BoundedBy(entries, bound) && LessEq(bound, next)
    ensures BoundedBy(entries, next)
  {
    forall j | 0 <= j < |entries|
      ensures LessEq(entries[j].name, next)
    {
      LessEqTransitive(entries[j].name, bound, next);
    }
  }

  /** Appending a key above every present key keeps the order strict and
      adds exactly that key. */
  lemma AppendNewKey(entries: seq<Entry>, e: Entry)
    requires StrictlyIncreasing(entries) && BoundedBy(entries, e.name) && !HasKey(entries, e.name)
    ensures StrictlyIncreasing(entries + [e])
    ensures BoundedBy(entries + [e], e.name)
    ensures forall n :: HasKey(entries + [e], n) <==> HasKey(entries, n) || n == e.name
  {
    var all := entries + [e];
    LessEqReflexive(e.name);
    forall n
      ensures HasKey(all, n) <==> HasKey(entries, n) || n == e.name
    {
      if HasKey(all, n) {
        var j :| 0 <= j < |all| && all[j].name == n;
        if j < |entries| {
          assert entries[j].name == n;
        }
      }
      if HasKey(entries, n) {
        var j :| 0 <= j < |entries| && entries[j].name == n;
        assert all[j].name == n;
      }
      if n == e.name {
        assert all[|entries|].name == n;
      }
    }
  }

  /** The loop's invariant after the first `i` sorted names: the entries
      hold exactly the image names among them, in strictly increasing order,
      each with the encoding of its file, and none above the last name. */
  ghost predicate Collected(entries: seq<Entry>, names: seq<string>, i: int, folder: string, encode: string -> string)
    requires 0 <= i <= |names|
  {
    && StrictlyIncreasing(entries)
    && (forall n :: HasKey(entries, n) <==> n in names[..i] && IsImageName(n))
    && (forall j :: 0 <= j < |entries| ==> entries[j].encoding == encode(Join(folder, entries[j].name)))
    && (i > 0 ==> BoundedBy(entries, names[i - 1]))
    && (i == 0 ==> entries == [])
  }

  /** The dictionary after the loop body for the `i`-th sorted name. */
  function Visit(entries: seq<Entry>, fname: string, folder: string, encode: string -> string): seq<Entry> {
    if IsImageName(fname) then Put(entries, fname, encode(Join(folder, fname))) else entries
  }

  lemma PrefixGrows(names: seq<string>, i: int)
    requires 0 <= i < |names|
    ensures forall n :: n in names[..i + 1] <==> n in names[..i] || n == names[i]
  {
    assert names[..i + 1] == names[..i] + [names[i]];
  }

  /** A name already present (a repeated listing entry) or not an image
      leaves the entries as they are. */
  lemma VisitUnchanged(entries: seq<Entry>, names: seq<string>, i: int, folder: string, encode: string -> string)
    requires 0 <= i < |names|
    requires Collected(entries, names, i, folder, encode)
    requires BoundedBy(entries, names[i])
    requires !IsImageName(names[i]) || HasKey(entries, names[i])
    ensures Visit(entries, names[i], folder, encode) == entries
    ensures Collected(entries, names, i + 1, folder, encode)
  {
    PrefixGrows(names, i);
  }

  /** A new image name is appended above every present key. */
  lemma VisitAppends(entries: seq<Entry>, names: seq<string>, i: int, folder: string, encode: string -> string)
    requires 0 <= i < |names|
    requires Collected(entries, names, i, folder, encode)
    requires BoundedBy(entries, names[i])
    requires IsImageName(names[i]) && !HasKey(entries, names[i])
    ensures Collected(Visit(entries, names[i], folder, encode), names, i + 1, folder, encode)
  {
    var fname := names[i];
    var e := Entry(fname, encode(Join(folder, fname)));
    assert Visit(entries, fname, folder, encode) == entries + [e];
    AppendNewKey(entries, e);
    PrefixGrows(names, i);
  }

  lemma VisitKeepsCollected(entries: seq<Entry>, names: seq<string>, i: int, folder: string, encode: string -> string)
    requires Sorted(names)
    requires 0 <= i < |names|
    requires Collected(entries, names, i, folder, encode)
    ensures Collected(Visit(entries, names[i], folder, encode), names, i + 1, folder, encode)
  {
    if i > 0 {
      BoundAdvances(entries, names[i - 1], names[i]);
    }
    if IsImageName(names[i]) && !HasKey(entries, names[i]) {
      VisitAppends(entries, names, i, folder, encode);
    } else {
      VisitUnchanged(entries, names, i, folder, encode);
    }
  }

  /** The folder is not a directory. */
  datatype FolderError = FileNotFound(folder: string)

  /** Encodes every image of a folder. `isDir` and `listing` describe the
      folder; `encode` stands for reading and base64-encoding the file at a
      path. A folder that is not a directory fails before anything is
      encoded. The entries come in strictly increasing name order, their
      names are exactly the image names of the listing, and each holds the
      encoding of its file. */
  method ProcessFolder(folder: string, isDir: bool, listing: seq<string>, encode: string -> string)
    returns (r: Result<seq<Entry>, FolderError>)
    ensures r.Failure? <==> !isDir
    ensures r.Failure? ==> r.error == FileNotFound(folder)
    ensures r.Success? ==> StrictlyIncreasing(r.value)
    ensures r.Success? ==> forall n :: HasKey(r.value, n) <==> n in listing && IsImageName(n)
    ensures r.Success? ==> forall i :: 0 <= i < |r.value| ==> r.value[i].encoding == encode(Join(folder, r.value[i].name))
  {
    if !isDir {
      return Failure(FileNotFound(folder));
    }
    var names := Sort(listing);
    var entries: seq<Entry> := [];
    var i := 0;
    while i < |names|
      invariant 0 <= i <= |names|
      invariant Collected(entries, names, i, folder, encode)
    {
      VisitKeepsCollected(entries, names, i, folder, encode);
      var fname := names[i];
      if IsImageName(fname) {
        entries := Put(entries, fname, encode(Join(folder, fname)));
      }
      i := i + 1;
    }
    assert names[..i] == names;
    assert forall n :: n in names <==> n in listing by {
      forall n ensures n in names <==> n in listing {
        assert n in names <==> n in multiset(names);
        assert n in listing <==> n in multiset(listing);
      }
    }
    return Success(entries);
  }
}
