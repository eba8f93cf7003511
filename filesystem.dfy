/**
 * The engine's FileSystem module (FileSystem.cpp): a thin layer over
 * std::filesystem. The disk is a map from path to entry; '/' is the only
 * separator; the clock that stamps modification times is a parameter.
 */
module FileSystem {
  import opened Common
  import opened Strings

  datatype Entry = Dir(mtime: int) | File(data: seq<byte>, mtime: int)

  type Disk = map<string, Entry>

  /** Every '\\' turned into '/', everything else kept (FileSystem::NormalizePath). */
  function NormalizePath(path: string): (r: string)
    ensures |r| == |path| && '\\' !in r
    ensures forall i :: 0 <= i < |path| && path[i] != '\\' ==> r[i] == path[i]
  {
    ReplaceAll(path, '\\', '/')
  }

  lemma NormalizePathIdempotent(path: string)
    ensures NormalizePath(NormalizePath(path)) == NormalizePath(path)
  {
  }

  /** The last path component: what follows the last '/' (path::filename). */
  function FileNameOf(path: string): (r: string)
    ensures '/' !in r
    ensures |r| <= |path| && r == path[|path| - |r|..]
  {
    path[LastIndexOf(path, '/') + 1..]
  }

  /** Position of the dot that starts the extension of a file name, or -1 if it has none. */
  function ExtensionDot(name: string): (k: int)
    ensures -1 <= k < |name|
    ensures k >= 0 ==> 0 < k && name[k] == '.' && forall j :: k < j < |name| ==> name[j] != '.'
  {
    if name == "." || name == ".." then -1
    else
      var k := LastIndexOf(name, '.');
      if k <= 0 then -1 else k
  }

  /** The extension of the last component, dot included, or "" (path::extension). */
  function ExtensionOf(path: string): string
  {
    var name := FileNameOf(path);
    var k := ExtensionDot(name);
    if k < 0 then "" else name[k..]
  }

  /** The last component without its extension (path::stem). */
  function StemOf(path: string): string
  {
    var name := FileNameOf(path);
    var k := ExtensionDot(name);
    if k < 0 then name else name[..k]
  }

  /**
   * Stem and extension split the file name: the extension is empty or a dot
   * followed by dot-free text, and the stem is never empty unless the name is.
   */
  lemma StemExtensionSplit(path: string)
    ensures StemOf(path) + ExtensionOf(path) == FileNameOf(path)
    ensures ExtensionOf(path) == "" || (ExtensionOf(path)[0] == '.' && '.' !in ExtensionOf(path)[1..])
    ensures FileNameOf(path) != "" ==> StemOf(path) != ""
  {
    var name := FileNameOf(path);
    var k := ExtensionDot(name);
    if k >= 0 {
      assert name[..k] + name[k..] == name;
      assert forall j :: 0 <= j < |name[k..][1..]| ==> name[k..][1..][j] == name[k + 1 + j];
    }
  }

  /** The lower-cased extension (FileSystem::GetFileExtension). */
  function GetFileExtension(path: string): string
  {
    ToLower(ExtensionOf(path))
  }

  /** The lower-cased extension of `f` is `extLower`. */
  predicate ExtensionIs(f: string, extLower: string)
  {
    GetFileExtension(f) == extLower
  }

  /** A stem is part of the last component, so it holds no separator. */
  lemma StemHasNoSlash(path: string)
    ensures '/' !in StemOf(path)
  {
    StemExtensionSplit(path);
    var stem := StemOf(path);
    assert forall k :: 0 <= k < |stem| ==> stem[k] == FileNameOf(path)[k];
  }

  /** The test GetFilesWithExtension applies to each file. */
  function HasExtension(extLower: string): string -> bool
  {
    f => ExtensionIs(f, extLower)
  }

  /** The filtering loop of GetFilesWithExtension: the files whose lower-cased extension is `extLower`, in order. */
  method KeepExtension(files: seq<string>, extLower: string) returns (filtered: seq<string>)
    ensures filtered == Filter(files, HasExtension(extLower))
  {
    ghost var keep := HasExtension(extLower);
    filtered := [];
    var i := 0;
    while i < |files|
      invariant 0 <= i <= |files|
      invariant filtered == Filter(files[..i], keep)
    {
      var f := files[i];
      FilterPrefixStep(files, i, keep);
      assert keep(f) == ExtensionIs(f, extLower);
      if ExtensionIs(f, extLower) {
        filtered := filtered + [f];
      }
      i := i + 1;
    }
    assert files[..i] == files;
  }

  /** `path` names an entry below directory `dir`, directly when `recursive` is false. */
  predicate InDir(path: string, dir: string, recursive: bool)
  {
    StartsWith(path, dir + "/") && |path| > |dir| + 1
      && (recursive || '/' !in path[|dir| + 1..])
  }

  /** The regular files a directory walk reports, as normalised paths. */
  function ListedFiles(disk: Disk, dir: string, recursive: bool): set<string>
  {
    if dir !in disk || disk[dir].File? then {}
    else set p | p in disk && disk[p].File? && InDir(p, dir, recursive) :: NormalizePath(p)
  }

  /** The directory a new entry at `path` goes into exists (the working directory when there is no '/'). */
  predicate ParentIsDir(disk: Disk, path: string)
  {
    var k := LastIndexOf(path, '/');
    k < 0 || (path[..k] in disk && disk[path[..k]].Dir?)
  }

  /** An output file stream can be opened on `path`. */
  predicate CanWriteFile(disk: Disk, path: string)
  {
    path != "" && (path !in disk || disk[path].File?) && ParentIsDir(disk, path)
  }

  /** The directories create_directories would have to make for `path`: its proper prefixes ending before a '/', and itself. */
  function DirChain(path: string): (r: set<string>)
    ensures path in r
  {
    (set i | 0 < i < |path| && path[i] == '/' :: path[..i]) + {path}
  }

  /** Files stored below `src` copied below `dst`, stamped `now` (the recursive branch of std::filesystem::copy). */
  function SubtreeCopy(disk: Disk, src: string, dst: string, now: int): Disk
  {
    var targets := set p | p in disk && StartsWith(p, src + "/") :: dst + p[|src|..];
    map q | q in targets ::
      var origin := src + q[|dst|..];
      if |dst| <= |q| && origin in disk then Stamp(disk[origin], now) else Dir(now)
  }

  function Stamp(e: Entry, now: int): Entry
  {
    match e
    case Dir(_) => Dir(now)
    case File(data, _) => File(data, now)
  }

  /** The entries that survive removing `path` and everything below it. */
  function Without(disk: Disk, path: string): (r: Disk)
    ensures path !in r
    ensures forall p :: p in r <==> p in disk && p != path && !StartsWith(p, path + "/")
    ensures forall p :: p in r ==> r[p] == disk[p]
  {
    map p | p in disk && p != path && !StartsWith(p, path + "/") :: disk[p]
  }

  /** Writing a file replaces only that entry, when the stream can be opened. */
  function WriteIfPossible(disk: Disk, path: string, data: seq<byte>, now: int): Disk
  {
    if CanWriteFile(disk, path) then disk[path := File(data, now)] else disk
  }

  /** Writing at `q` leaves every other path as it was. */
  lemma WriteIfPossibleOther(disk: Disk, p: string, q: string, data: seq<byte>, now: int)
    requires p != q
    ensures var r := WriteIfPossible(disk, q, data, now);
      (p in r <==> p in disk) && (p in disk ==> r[p] == disk[p])
  {
  }

  class FileSystem {
    var disk: Disk

    constructor(initial: Disk)
      ensures disk == initial
    {
      disk := initial;
    }

    predicate Exists(path: string)
      reads this
    {
      path in disk
    }

    /** The contents an input stream reads, or None when it cannot be opened. */
    function ReadFile(path: string): (r: Option<seq<byte>>)
      reads this
      ensures r.Some? <==> path in disk && disk[path].File?
    {
      if path in disk && disk[path].File? then Some(disk[path].data) else None
    }

    /** Seconds of the last modification, 0 for a missing path (FileSystem::GetLastModTime). */
    function GetLastModTime(path: string): (t: int)
      reads this
      ensures path !in disk ==> t == 0
      ensures path in disk ==> t == disk[path].mtime
    {
      LastModTime(disk, path)
    }

    /** Writing a whole file through an output stream; nothing happens when it cannot be opened. */
    method WriteFile(path: string, data: seq<byte>, now: int) returns (ok: bool)
      modifies this
      ensures ok == CanWriteFile(old(disk), path)
      ensures disk == if ok then old(disk)[path := File(data, now)] else old(disk)
    {
      ok := CanWriteFile(disk, path);
      if ok {
        disk := disk[path := File(data, now)];
      }
    }

    /** FileSystem::CreateDir: true at once for an existing path, otherwise create_directories. */
    method CreateDir(path: string, now: int) returns (ok: bool)
      modifies this
      ensures path in old(disk) ==> ok && disk == old(disk)
      ensures path !in old(disk) ==>
        ok == (forall d :: d in DirChain(path) && d in old(disk) ==> old(disk)[d].Dir?)
      ensures ok ==> path in disk
      ensures path !in old(disk) && ok ==>
        disk == old(disk) + map d | d in DirChain(path) && d !in old(disk) :: Dir(now)
      ensures !ok ==> disk == old(disk)
    {
      if path in disk {
        return true;
      }
      var chain := DirChain(path);
      ok := forall d | d in chain && d in disk :: disk[d].Dir?;
      if ok {
        disk := disk + map d | d in chain && d !in disk :: Dir(now);
      }
    }

    /**
     * FileSystem::Copy: false for a missing source; a file is copied onto the
     * destination, or into it when the destination is a directory; a
     * directory is copied with everything below it.
     */
    method Copy(source: string, destination: string, now: int) returns (ok: bool)
      modifies this
      ensures source !in old(disk) ==> !ok && disk == old(disk)
      ensures source in old(disk) && old(disk)[source].File? ==>
        var target := CopyTarget(old(disk), source, destination);
        ok == CanWriteFile(old(disk), target)
        && disk == if ok then old(disk)[target := File(old(disk)[source].data, now)] else old(disk)
      ensures source in old(disk) && old(disk)[source].Dir? ==>
        ok == DirCopyAllowed(old(disk), destination)
        && disk == if ok then DirCopied(old(disk), source, destination, now) else old(disk)
      ensures ok == CopySucceeds(old(disk), source, destination) && disk == Copied(old(disk), source, destination, now)
    {
      if source !in disk {
        return false;
      }
      match disk[source]
      case File(data, _) =>
        var target := CopyTarget(disk, source, destination);
        ok := CanWriteFile(disk, target);
        if ok {
          disk := disk[target := File(data, now)];
        }
      case Dir(_) =>
        ok := DirCopyAllowed(disk, destination);
        if ok {
          disk := DirCopied(disk, source, destination, now);
        }
    }

    /** FileSystem::Delete: false for a missing path, otherwise the path and everything below it are removed. */
    method Delete(path: string) returns (ok: bool)
      modifies this
      ensures ok == (path in old(disk))
      ensures disk == if ok then Without(old(disk), path) else old(disk)
    {
      if path !in disk {
        return false;
      }
      disk := Without(disk, path);
      ok := true;
    }

    /**
     * FileSystem::GetAllFiles: every regular file below `dir` (directly, or
     * at any depth when `recursive`), each once, normalised; the order of the
     * directory walk is not specified, so the model promises none.
     */
    method GetAllFiles(dir: string, recursive: bool) returns (files: seq<string>)
      ensures forall f :: f in files <==> f in ListedFiles(disk, dir, recursive)
      ensures NoDuplicates(files)
      ensures dir !in disk ==> files == []
    {
      var pending := ListedFiles(disk, dir, recursive);
      files := [];
      while pending != {}
        invariant forall f :: f in files || f in pending <==> f in ListedFiles(disk, dir, recursive)
        invariant forall f :: f in files ==> f !in pending
        invariant NoDuplicates(files)
        decreases |pending|
      {
        var f :| f in pending;
        files := files + [f];
        pending := pending - {f};
      }
      if files != [] {
        assert files[0] in files;
      }
    }

    /**
     * FileSystem::GetFilesWithExtension: the files of the walk, in walk
     * order, whose lower-cased extension equals the lower-cased `extension`.
     */
    method GetFilesWithExtension(dir: string, extension: string, recursive: bool)
      returns (filtered: seq<string>, ghost all: seq<string>)
      ensures forall f :: f in all <==> f in ListedFiles(disk, dir, recursive)
      ensures filtered == Filter(all, HasExtension(ToLower(extension)))
      ensures forall f :: f in filtered <==> f in ListedFiles(disk, dir, recursive) && ExtensionIs(f, ToLower(extension))
      ensures NoDuplicates(filtered)
    {
      var allFiles := GetAllFiles(dir, recursive);
      all := allFiles;
      var extLower := ToLower(extension);
      filtered := KeepExtension(allFiles, extLower);
      FilterMembers(allFiles, HasExtension(extLower));
      FilterNoDuplicates(allFiles, HasExtension(extLower));
    }

    /** FileSystem::Awake: the asset folder and its library folder exist afterwards; nothing that existed changes. */
    method Awake(now: int) returns (ok: bool)
      modifies this
      ensures ok
      ensures "Assets" !in old(disk) || old(disk)["Assets"].Dir? ==>
        "Assets" in disk && "Assets/Library" in disk && disk["Assets"].Dir?
      ensures forall p :: p in old(disk) ==> p in disk && disk[p] == old(disk)[p]
    {
      if !Exists("Assets") {
        var _ := CreateDir("Assets", now);
      }
      if !Exists("Assets/Library") {
        LibraryChain();
        var _ := CreateDir("Assets/Library", now);
      }
      return true;
    }
  }

  lemma LibraryChain()
    ensures DirChain("Assets/Library") == {"Assets", "Assets/Library"}
  {
    var p := "Assets/Library";
    assert forall i :: 0 < i < |p| && p[i] == '/' ==> i == 6;
    assert p[..6] == "Assets";
  }

  /** Seconds of the last modification of `path`, 0 when it is missing. */
  function LastModTime(disk: Disk, path: string): int
  {
    if path in disk then disk[path].mtime else 0
  }

  /** Whether FileSystem::Copy reports success. */
  predicate CopySucceeds(disk: Disk, source: string, destination: string)
  {
    source in disk
    && if disk[source].File? then CanWriteFile(disk, CopyTarget(disk, source, destination))
       else DirCopyAllowed(disk, destination)
  }

  /** The disk after FileSystem::Copy. */
  function Copied(disk: Disk, source: string, destination: string, now: int): Disk
  {
    if !CopySucceeds(disk, source, destination) then disk
    else if disk[source].File? then disk[CopyTarget(disk, source, destination) := File(disk[source].data, now)]
    else DirCopied(disk, source, destination, now)
  }

  /** Where a copied file lands: inside the destination when that is a directory. */
  function CopyTarget(disk: Disk, source: string, destination: string): string
  {
    if destination in disk && disk[destination].Dir? then destination + "/" + FileNameOf(source)
    else destination
  }

  /** A directory can be copied onto a directory, or onto a new path whose parent exists. */
  predicate DirCopyAllowed(disk: Disk, destination: string)
  {
    destination != ""
    && (if destination in disk then disk[destination].Dir? else ParentIsDir(disk, destination))
  }

  function DirCopied(disk: Disk, source: string, destination: string, now: int): Disk
  {
    var withRoot := if destination in disk then disk else disk[destination := Dir(now)];
    withRoot + SubtreeCopy(disk, source, destination, now)
  }
}
