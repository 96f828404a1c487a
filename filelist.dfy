/** The editor's in-memory file list: `Filedotmd` records held in a
    `Filelist` whose name array runs parallel to its file array, with the name
    of the open file in `curopen`. A missing (null) name, content or
    `curopen` is the empty string, which JavaScript treats as false just
    like null. */
module Files {
  import opened Text

  /** One markdown file. */
  class Filedotmd {
    var name: string
    var content: string
    var open: bool

    constructor (name: string, content: string, open: bool)
      ensures this.name == name && this.content == content && this.open == open
    {
      this.name := name;
      this.content := content;
      this.open := open;
    }

    method SetName(name: string)
      modifies this
      ensures this.name == name && content == old(content) && open == old(open)
    {
      this.name := name;
    }

    method SetContent(content: string)
      modifies this
      ensures this.content == content && name == old(name) && open == old(open)
    {
      this.content := content;
    }

    method SetOpen(open: bool)
      modifies this
      ensures this.open == open && name == old(name) && content == old(content)
    {
      this.open := open;
    }
  }

  /** A file as the browser cache hands it back: name, content, open flag. */
  datatype Entry = Entry(name: string, content: string, open: bool)

  /** No name occurs twice. */
  predicate Distinct(names: seq<string>)
  {
    forall i, j :: 0 <= i < j < |names| ==> names[i] != names[j]
  }

  /** `Array.prototype.indexOf`: the first index holding name, or -1. */
  function IndexOf(names: seq<string>, name: string): (i: int)
    ensures -1 <= i < |names|
    ensures i == -1 <==> name !in names
    ensures 0 <= i ==> names[i] == name && name !in names[..i]
  {
    if names == [] then -1
    else if names[0] == name then 0
    else
      var k := IndexOf(names[1..], name);
      if k == -1 then -1
      else
        assert names[..k + 1] == [names[0]] + names[1..][..k];
        k + 1
  }

  /** In a list without repetitions, the index of an entry is its position. */
  lemma IndexOfDistinct(names: seq<string>, i: nat)
    requires Distinct(names) && i < |names|
    ensures IndexOf(names, names[i]) == i
  {
    var k := IndexOf(names, names[i]);
    assert names[k] == names[i];
  }

  /** s without its entry at i, as `splice(i, 1)` leaves it. */
  function Without<T>(s: seq<T>, i: nat): seq<T>
    requires i < |s|
  {
    s[..i] + s[i + 1..]
  }

  /** The length of the longest name. */
  function MaxLen(names: seq<string>): (m: nat)
    ensures forall n :: n in names ==> |n| <= m
  {
    if names == [] then 0
    else
      var rest := MaxLen(names[1..]);
      assert forall n :: n in names ==> n == names[0] || n in names[1..];
      if |names[0]| > rest then |names[0]| else rest
  }

  /** Starting from name, keep appending '1' until the name is not taken. */
  function FreeNameFrom(names: seq<string>, name: string): (r: string)
    ensures r !in names
    ensures |name| <= |r| && r[..|name|] == name
    ensures forall k :: |name| <= k < |r| ==> r[k] == '1'
    decreases MaxLen(names) + 1 - |name|
  {
    if name in names then
      var r := FreeNameFrom(names, name + "1");
      assert r[..|name|] == (name + "1")[..|name|];
      assert r[|name|] == (name + "1")[|name|];
      r
    else name
  }

  /** The candidate `file<n+1>` for a list of n names. */
  function FirstCandidate(names: seq<string>): string
  {
    "file" + Digits(|names| + 1)
  }

  /** What `getFreeName` returns: the first of `file<n+1>`, `file<n+1>1`,
      `file<n+1>11`, … that is not taken. */
  function FreeName(names: seq<string>): string
  {
    FreeNameFrom(names, FirstCandidate(names))
  }

  /** The name `newFile` files under: the requested one when it is given and
      free, a generated free one otherwise. */
  function ChosenName(names: seq<string>, name: string): string
  {
    if name != "" && name !in names then name else FreeName(names)
  }

  /** The content `newFile` stores: the given one, or a heading with the name. */
  function ChosenContent(name: string, content: string): string
  {
    if content != "" then content else "# " + name + "\nContent..."
  }

  /** The chosen name is never taken, and it is the requested name exactly
      when that name is given and free. */
  lemma ChosenNameFresh(names: seq<string>, name: string)
    ensures ChosenName(names, name) !in names && ChosenName(names, name) != ""
    ensures ChosenName(names, name) == name <== name != "" && name !in names
    ensures name in names ==> ChosenName(names, name) != name
  {
  }

  /** The generated name extends `file<n+1>` by a run of '1's. */
  lemma FreeNameShape(names: seq<string>)
    ensures var r := FreeName(names);
            var base := FirstCandidate(names);
            r !in names && |base| <= |r| && r[..|base|] == base
            && forall k :: |base| <= k < |r| ==> r[k] == '1'
  {
  }

  /** The names a list of cached entries ends up with, added to names one
      after the other. */
  function NamesAfter(names: seq<string>, entries: seq<Entry>): seq<string>
    decreases |entries|
  {
    if entries == [] then names
    else NamesAfter(names + [ChosenName(names, entries[0].name)], entries[1..])
  }

  /** The name of the last open entry, the one before them being cur. */
  function LastOpen(cur: string, entries: seq<Entry>): string
    decreases |entries|
  {
    if entries == [] then cur
    else LastOpen(if entries[0].open then entries[0].name else cur, entries[1..])
  }

  /** Loading entries adds one distinct name per entry. */
  lemma {:induction false} NamesAfterDistinct(names: seq<string>, entries: seq<Entry>)
    requires Distinct(names)
    ensures var r := NamesAfter(names, entries);
            Distinct(r) && |r| == |names| + |entries| && r[..|names|] == names
    decreases |entries|
  {
    if entries != [] {
      var n := ChosenName(names, entries[0].name);
      ChosenNameFresh(names, entries[0].name);
      assert Distinct(names + [n]);
      NamesAfterDistinct(names + [n], entries[1..]);
      var r := NamesAfter(names, entries);
      assert r[..|names|] == r[..|names| + 1][..|names|];
    }
  }

  /** The list of all files. */
  class Filelist {
    var filenames: seq<string>
    var files: seq<Filedotmd>
    var curopen: string

    /** The arrays are parallel and the names are unique. */
    predicate Valid()
      reads this, files
    {
      |filenames| == |files|
      && (forall i :: 0 <= i < |files| ==> files[i].name == filenames[i])
      && Distinct(filenames)
    }

    /** No file has the empty name, and only the file named `curopen` may be
        open. */
    predicate Tracked()
      reads this, files
    {
      (forall i :: 0 <= i < |filenames| ==> filenames[i] != "")
      && forall i :: 0 <= i < |files| && files[i].open ==> i < |filenames| && filenames[i] == curopen
    }

    /** An empty list, then each cached entry added by `newFile`; `curopen`
        is the cached name of the last entry marked open, even where
        `newFile` filed that entry under another name. */
    constructor (cached: seq<Entry>)
      ensures Valid()
      ensures filenames == NamesAfter([], cached)
      ensures curopen == LastOpen("", cached)
      ensures |files| == |cached|
      ensures forall i :: 0 <= i < |files| ==>
                files[i].open == cached[i].open && files[i].content == ChosenContent(filenames[i], cached[i].content)
    {
      filenames := [];
      files := [];
      curopen := "";
      new;
      var i := 0;
      while i < |cached|
        invariant 0 <= i <= |cached|
        invariant Valid() && |files| == i
        invariant NamesAfter(filenames, cached[i..]) == NamesAfter([], cached)
        invariant LastOpen(curopen, cached[i..]) == LastOpen("", cached)
        invariant forall k :: 0 <= k < i ==>
                    files[k].open == cached[k].open && files[k].content == ChosenContent(filenames[k], cached[k].content)
      {
        AddCached(cached[i]);
        assert cached[i..][0] == cached[i] && cached[i..][1..] == cached[i + 1..];
        i := i + 1;
      }
      assert cached[i..] == [];
    }

    /** One step of the constructor's loop: the entry is added by `newFile`,
        and when it is marked open its cached name becomes `curopen`. */
    method AddCached(e: Entry)
      requires Valid()
      modifies this
      ensures Valid()
      ensures filenames == old(filenames) + [ChosenName(old(filenames), e.name)]
      ensures |files| == |old(files)| + 1 && files[..|old(files)|] == old(files)
      ensures files[|old(files)|].open == e.open
      ensures files[|old(files)|].content == ChosenContent(filenames[|old(files)|], e.content)
      ensures curopen == if e.open then e.name else old(curopen)
    {
      NewFile(e.name, e.content, e.open);
      if e.open {
        curopen := e.name;
      }
    }

    /** `nameFree` */
    predicate NameFree(name: string)
      reads this
    {
      name !in filenames
    }

    /** `nameFree` and `getFile` agree: a name is free exactly when no file
        of that name can be got, and `indexOf` finds no entry for it. */
    lemma NameFreeAgrees(name: string)
      requires Valid()
      ensures NameFree(name) <==> GetFile(name) == null
      ensures NameFree(name) <==> IndexOf(filenames, name) == -1
    {
    }

    /** `getFreeName`: the loop tries `file<n+1>` and appends '1' while the
        name is taken; it ends because no name longer than every taken one
        is taken. */
    method GetFreeName() returns (name: string)
      ensures name == FreeName(filenames)
      ensures name !in filenames
    {
      name := "file" + Digits(|filenames| + 1);
      while name in filenames
        invariant FreeNameFrom(filenames, name) == FreeName(filenames)
        decreases MaxLen(filenames) + 1 - |name|
      {
        name := name + "1";
      }
    }

    /** `newFile`: a new file is appended to both arrays, under the chosen name
        and with the chosen content. */
    method NewFile(name: string, content: string, open: bool)
      requires Valid()
      modifies this
      ensures Valid()
      ensures var nm := ChosenName(old(filenames), name);
              filenames == old(filenames) + [nm]
              && |files| == |old(files)| + 1 && files[..|old(files)|] == old(files)
              && fresh(files[|old(files)|])
              && files[|old(files)|].content == ChosenContent(nm, content)
              && files[|old(files)|].open == open
      ensures curopen == old(curopen)
      ensures !open && old(Tracked()) ==> Tracked()
    {
      var nm := ChooseName(name);
      var c := if content != "" then content else "# " + nm + "\nContent...";
      var nfile := new Filedotmd(nm, c, open);
      ChosenNameFresh(filenames, name);
      filenames := filenames + [nm];
      files := files + [nfile];
      assert files[..|old(files)|] == old(files);
    }

    /** `newFile`'s choice of name: the requested one when given and free,
        else `getFreeName`. */
    method ChooseName(name: string) returns (nm: string)
      ensures nm == ChosenName(filenames, name)
    {
      if name != "" && NameFree(name) {
        nm := name;
      } else {
        nm := GetFreeName();
      }
    }

    /** `getFile`: the file of that name, or null when there is none. */
    function GetFile(filename: string): (f: Filedotmd?)
      requires Valid()
      reads this, files
      ensures f == null <==> filename !in filenames
      ensures f != null ==> f in files && f.name == filename
    {
      var i := IndexOf(filenames, filename);
      if i > -1 then files[i] else null
    }

    /** `renameFile`: succeeds only when oldname exists and newname is free;
        then the entry keeps its place in both arrays under the new name, and
        `curopen` becomes newname. */
    method RenameFile(oldname: string, newname: string) returns (ok: bool)
      requires Valid()
      modifies this, files
      ensures Valid() && files == old(files)
      ensures ok <==> oldname in old(filenames) && newname !in old(filenames)
      ensures !ok ==> filenames == old(filenames) && curopen == old(curopen)
      ensures ok ==> filenames == old(filenames)[IndexOf(old(filenames), oldname) := newname]
                     && curopen == newname
      ensures forall i :: 0 <= i < |files| ==>
                files[i].open == old(files[i].open) && files[i].content == old(files[i].content)
      ensures old(Tracked()) && oldname == old(curopen) && newname != "" ==> Tracked()
    {
      var index := IndexOf(filenames, oldname);
      if index > -1 {
        if NameFree(newname) {
          filenames := filenames[index := newname];
          files[index].SetName(newname);
          curopen := newname;
          return true;
        }
      }
      return false;
    }

    /** `openFile`, without the editor: when the file exists, the file named
        by `curopen` (if set and present) is closed, the requested one is
        opened and becomes `curopen`; otherwise nothing changes. */
    method OpenFile(filename: string)
      requires Valid()
      modifies this, files
      ensures Valid() && filenames == old(filenames) && files == old(files)
      ensures filename !in filenames ==> curopen == old(curopen)
      ensures filename in filenames ==> curopen == filename
      ensures forall i :: 0 <= i < |files| ==>
                files[i].open == (if filename in filenames && filenames[i] == filename then true
                                  else if filename in filenames && old(curopen) != "" && filenames[i] == old(curopen) then false
                                  else old(files[i].open))
      ensures forall i :: 0 <= i < |files| ==> files[i].content == old(files[i].content)
      ensures old(Tracked()) ==> Tracked()
    {
      var file := GetFile(filename);
      if file != null {
        CloseCurrent();
        file.SetOpen(true);
        curopen := filename;
      }
    }

    /** The first half of `openFile`'s switch: the file named by `curopen`,
        if set and present, is closed. */
    method CloseCurrent()
      requires Valid()
      modifies files
      ensures Valid()
      ensures forall i :: 0 <= i < |files| ==>
                files[i].open == (if curopen != "" && filenames[i] == curopen then false else old(files[i].open))
                && files[i].content == old(files[i].content)
      ensures old(Tracked()) ==> forall i :: 0 <= i < |files| ==> !files[i].open
    {
      if curopen != "" {
        var opn := GetFile(curopen);
        if opn != null {
          opn.SetOpen(false);
        }
      }
    }

    /** `deleteFile`, without the editor: the entry leaves both arrays; then
        the first remaining file is opened, or, when none remains, a file
        `example` holding welcome is created and opened. */
    method DeleteFile(filename: string, welcome: string)
      requires Valid()
      modifies this, files
      ensures Valid()
      ensures filename !in old(filenames) ==>
                filenames == old(filenames) && files == old(files) && curopen == old(curopen)
                && (forall i :: 0 <= i < |files| ==> files[i].open == old(files[i].open))
      ensures filename in old(filenames) ==>
                var i := IndexOf(old(filenames), filename);
                var rest := Without(old(filenames), i);
                (rest != [] ==> filenames == rest && files == Without(old(files), i))
                && (rest == [] ==> filenames == ["example"] && fresh(files[0])
                                   && files[0].content == ChosenContent("example", welcome))
                && curopen == filenames[0] && files[0].open
      ensures forall f :: f in files && f in old(files) ==> f.content == old(f.content)
      ensures filename in old(filenames) ==>
                forall f :: f in files && f in old(files) && f != files[0] ==>
                  f.open == (old(f.open) && !(old(curopen) != "" && f.name == old(curopen)))
      ensures old(Tracked()) ==> Tracked()
    {
      var index := IndexOf(filenames, filename);
      if index > -1 {
        RemoveKeepsValid(index);
        filenames := Without(filenames, index);
        files := Without(files, index);
        OpenFirst(welcome);
      }
    }

    /** What `deleteFile` does after the splice: open the first file, or,
        when the list is empty, create `example` holding welcome and open it. */
    method OpenFirst(welcome: string)
      requires Valid()
      modifies this, files
      ensures Valid()
      ensures old(filenames) != [] ==> filenames == old(filenames) && files == old(files)
      ensures old(filenames) == [] ==> filenames == ["example"] && fresh(files[0])
                                       && files[0].content == ChosenContent("example", welcome)
      ensures filenames != [] && curopen == filenames[0] && files[0].open
      ensures forall f :: f in files && f in old(files) ==> f.content == old(f.content)
      ensures forall f :: f in files && f in old(files) && f != files[0] ==>
                f.open == (old(f.open) && !(old(curopen) != "" && f.name == old(curopen)))
      ensures old(Tracked()) ==> Tracked()
    {
      if |filenames| > 0 {
        OpenFile(filenames[0]);
      } else {
        NewFile("example", welcome, false);
        assert filenames == ["example"];
        OpenFile("example");
      }
    }

    /** Taking entry i out of both arrays keeps them parallel and unique, and
        keeps the open files tracked. */
    lemma RemoveKeepsValid(i: nat)
      requires Valid() && i < |filenames|
      ensures var names := Without(filenames, i);
              var fs := Without(files, i);
              |names| == |fs| && Distinct(names)
              && (forall k :: 0 <= k < |fs| ==> fs[k].name == names[k])
              && (Tracked() ==> (forall k :: 0 <= k < |names| ==> names[k] != "")
                                && forall k :: 0 <= k < |fs| && fs[k].open ==> names[k] == curopen)
    {
      var names := Without(filenames, i);
      forall a, b | 0 <= a < b < |names| ensures names[a] != names[b] {
        var a' := if a < i then a else a + 1;
        var b' := if b < i then b else b + 1;
        assert names[a] == filenames[a'] && names[b] == filenames[b'];
      }
    }
  }
}
