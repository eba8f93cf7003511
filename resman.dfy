/**
 * The resource manager (ResMan.cpp): a cache of loaded meshes keyed by
 * library path, and the start-up import that gives every asset a ".meta"
 * file holding its identifier and a copy in the library folder named by
 * that identifier. The identifier generator is an input: a stream of
 * 64-bit values and a count of the values drawn so far.
 */
module ResMan {
  import opened Common
  import opened Strings
  import opened FileSystem
  import opened Gl
  import opened Resources
  import opened Meshes

  /** The library folder, inside the asset folder. */
  const LIBRARY_DIR: string := "Assets/Library/"

  /** Where the library copy of the asset with identifier `uid` lives. */
  function LibraryPath(uid: u64): (p: string)
    ensures StartsWith(p, LIBRARY_DIR) && '/' !in p[|LIBRARY_DIR|..]
  {
    var digits := NatToString(uid);
    assert forall i :: 0 <= i < |digits| ==> digits[i] != '/';
    assert (LIBRARY_DIR + digits)[|LIBRARY_DIR|..] == digits;
    LIBRARY_DIR + digits
  }

  /** The meta file that sits next to an asset. */
  function MetaPath(path: string): string
  {
    path + ".meta"
  }

  /** The first line of a meta file. */
  function UidLine(uid: u64): string
  {
    "UID: " + NatToString(uid)
  }

  /** The second line of a meta file. */
  function TimeLine(time: int): string
  {
    "Time: " + IntToString(time)
  }

  /** The text GetOrCreateMeta writes: the identifier line, then the modification-time line, each ended by '\n'. */
  function MetaText(uid: u64, time: int): string
  {
    Terminated([UidLine(uid), TimeLine(time)])
  }

  /** Printable ASCII: one byte per character and no line break. */
  predicate Printable(s: string)
  {
    forall i :: 0 <= i < |s| ==> ' ' <= s[i] <= '~'
  }

  lemma PrintableAppend(a: string, b: string)
    requires Printable(a) && Printable(b)
    ensures Printable(a + b)
  {
    assert forall i :: |a| <= i < |a + b| ==> (a + b)[i] == b[i - |a|];
  }

  /** Both meta lines are printable. */
  lemma MetaLinesPrintable(uid: u64, time: int)
    ensures Printable(UidLine(uid)) && Printable(TimeLine(time))
  {
    assert Printable("UID: ") && Printable("Time: ") && Printable("-");
    var n := if time < 0 then -time else time;
    assert Printable(NatToString(uid)) && Printable(NatToString(n));
    if time < 0 {
      PrintableAppend("-", NatToString(n));
    }
    assert Printable(IntToString(time));
    PrintableAppend("UID: ", NatToString(uid));
    PrintableAppend("Time: ", IntToString(time));
  }

  /** Two terminated lines, spelled out. */
  lemma TerminatedTwo(a: string, b: string)
    ensures Terminated([a, b]) == a + "\n" + (b + "\n" + "")
  {
    assert [a, b][1..] == [b];
    assert [b][1..] == [];
    assert Terminated([b]) == b + "\n" + Terminated([]);
    assert Terminated([a, b]) == a + "\n" + Terminated([b]);
  }

  lemma MetaTextIsByteText(uid: u64, time: int)
    ensures IsByteText(MetaText(uid, time))
  {
    var a, b := UidLine(uid), TimeLine(time);
    MetaLinesPrintable(uid, time);
    var t := MetaText(uid, time);
    TerminatedTwo(a, b);
    assert forall i :: 0 <= i < |a| ==> t[i] == a[i];
    assert t[|a|] == '\n';
    assert forall i :: |a| < i < |a| + 1 + |b| ==> t[i] == b[i - |a| - 1];
    assert t[|t| - 1] == '\n';
  }

  function MetaBytes(uid: u64, time: int): seq<byte>
  {
    MetaTextIsByteText(uid, time);
    TextBytes(MetaText(uid, time))
  }

  /**
   * The identifier on a line that contains "UID: ": the text from position
   * 5 of the line parsed by std::stoull, 0 when that throws.
   */
  function UidInLine(line: string): u64
    requires 5 <= |line|
  {
    var v := Stoull(line[5..]);
    if v.Some? then v.value else 0
  }

  /** A text that contains `sub` is at least as long as `sub`. */
  lemma ContainsLength(s: string, sub: string)
    requires Contains(s, sub)
    ensures |sub| <= |s|
  {
  }

  /** The identifier of the first line that contains "UID: ", 0 when there is none. */
  function UidOfLines(lines: seq<string>): u64
  {
    if lines == [] then 0
    else if Contains(lines[0], "UID: ") then
      ContainsLength(lines[0], "UID: ");
      UidInLine(lines[0])
    else UidOfLines(lines[1..])
  }

  /** The identifier a meta file's text holds, 0 meaning none. */
  function MetaUid(text: string): u64
  {
    UidOfLines(Lines(text))
  }

  /** The identifier the meta file at `metaPath` holds; a missing file or a directory reads as 0. */
  function StoredUid(disk: Disk, metaPath: string): u64
  {
    if metaPath in disk && disk[metaPath].File? then MetaUid(BytesText(disk[metaPath].data)) else 0
  }

  /**
   * The getline loop of GetOrCreateMeta: the lines are read in order and
   * the first one that contains "UID: " decides the identifier.
   */
  method ReadMetaUid(text: string) returns (uid: u64)
    ensures uid == MetaUid(text)
  {
    var lines := Lines(text);
    uid := 0;
    var i := 0;
    while i < |lines|
      invariant 0 <= i <= |lines|
      invariant UidOfLines(lines[i..]) == MetaUid(text)
    {
      if Contains(lines[i], "UID: ") {
        ContainsLength(lines[i], "UID: ");
        uid := UidInLine(lines[i]);
        break;
      }
      assert lines[i..][1..] == lines[i + 1..];
      i := i + 1;
    }
  }

  /** A meta file written for a 64-bit identifier reads back as that identifier. */
  lemma MetaRoundTrip(uid: u64, time: int)
    ensures MetaUid(BytesText(MetaBytes(uid, time))) == uid
  {
    MetaTextIsByteText(uid, time);
    TextRoundTrip(MetaText(uid, time));
    var first, second := UidLine(uid), TimeLine(time);
    MetaLinesPrintable(uid, time);
    LinesOfTerminated([first, second]);
    assert Lines(MetaText(uid, time)) == [first, second];
    PrefixContains(first, "UID: ");
    assert first[5..] == NatToString(uid);
    StoullOfNatToString(uid);
  }

  /** Whether the import loop passes over a listed path, as ResMan.cpp writes it: only meta files. */
  predicate SkippedAsWritten(path: string)
  {
    Contains(path, ".meta")
  }

  /** Whether the import loop passes over a listed path: meta files, and the library's own entries. */
  predicate Skipped(path: string)
  {
    Contains(path, ".meta") || StartsWith(path, LIBRARY_DIR)
  }

  /** The disk and the number of identifiers drawn: what the import changes. */
  datatype Store = Store(disk: Disk, drawn: nat)

  /**
   * GetOrCreateMeta: a nonzero stored identifier is returned and nothing
   * changes; otherwise the next identifier is drawn and its meta text is
   * written when the file can be opened for writing.
   */
  function MetaStep(st: Store, path: string, uids: nat -> u64, now: int): (Store, u64)
  {
    var stored := StoredUid(st.disk, MetaPath(path));
    if stored != 0 then (st, stored)
    else
      var u := uids(st.drawn);
      (Store(WriteIfPossible(st.disk, MetaPath(path), MetaBytes(u, LastModTime(st.disk, path)), now), st.drawn + 1), u)
  }

  /** One pass of the ImportAssets loop: the identifier, then a library copy when none exists yet. */
  function ImportOne(st: Store, path: string, skip: string -> bool, uids: nat -> u64, now: int): Store
  {
    if skip(path) then st
    else
      var m := MetaStep(st, path, uids, now);
      var lib := LibraryPath(m.1);
      if lib in m.0.disk then m.0 else m.0.(disk := Copied(m.0.disk, path, lib, now))
  }

  /** The ImportAssets loop over the listed paths, in listing order. */
  function ImportAll(st: Store, paths: seq<string>, skip: string -> bool, uids: nat -> u64, now: int): Store
  {
    if paths == [] then st
    else ImportOne(ImportAll(st, paths[..|paths| - 1], skip, uids, now), paths[|paths| - 1], skip, uids, now)
  }

  /**
   * An identifier is kept exactly when it is nonzero: once the meta file
   * is written, asking again returns the same identifier and changes
   * nothing, while a zero identifier is replaced by a new draw.
   */
  lemma MetaStepIdempotent(st: Store, path: string, uids: nat -> u64, now: int, later: int)
    requires StoredUid(st.disk, MetaPath(path)) != 0 || CanWriteFile(st.disk, MetaPath(path))
    ensures var m := MetaStep(st, path, uids, now);
      m.1 != 0 <==> MetaStep(m.0, path, uids, later) == m
  {
    var m := MetaStep(st, path, uids, now);
    if StoredUid(st.disk, MetaPath(path)) == 0 {
      var u := uids(st.drawn);
      var bytes := MetaBytes(u, LastModTime(st.disk, path));
      assert m.0.disk[MetaPath(path)] == File(bytes, now);
      MetaRoundTrip(u, LastModTime(st.disk, path));
      assert StoredUid(m.0.disk, MetaPath(path)) == u;
      if u == 0 {
        assert MetaStep(m.0, path, uids, later).0.drawn == m.0.drawn + 1;
      }
    }
  }

  /** A path that starts with a prefix still does after something is appended. */
  lemma StartsWithAppend(a: string, b: string, prefix: string)
    requires StartsWith(a, prefix)
    ensures StartsWith(a + b, prefix)
  {
    assert (a + b)[..|prefix|] == a[..|prefix|];
  }

  /** A text without a dot contains no ".meta". */
  lemma NoDotNoMeta(s: string)
    requires '.' !in s
    ensures !Contains(s, ".meta")
  {
    forall i | 0 <= i <= |s| - 5
      ensures !OccursAt(s, ".meta", i)
    {
      assert s[i..i + 5][0] == s[i] != '.';
    }
  }

  /** A meta path lies in the library only when its asset does. */
  lemma MetaPathOutsideLibrary(path: string)
    requires !StartsWith(path, LIBRARY_DIR)
    ensures !StartsWith(MetaPath(path), LIBRARY_DIR)
  {
    var m := MetaPath(path);
    if |path| >= |LIBRARY_DIR| {
      assert path[..|LIBRARY_DIR|] == m[..|LIBRARY_DIR|];
    } else {
      assert m[|path|] == '.';
      assert LIBRARY_DIR[|path|] != '.';
      if |LIBRARY_DIR| <= |m| {
        assert m[..|LIBRARY_DIR|][|path|] == '.';
      }
    }
  }

  /** A meta path contains ".meta". */
  lemma MetaPathIsMeta(path: string)
    ensures Contains(MetaPath(path), ".meta")
  {
    assert OccursAt(MetaPath(path), ".meta", |path|);
  }

  /** Copying into a library path keeps every entry and changes only entries inside the library. */
  lemma CopiedIntoLibrary(disk: Disk, source: string, uid: u64, now: int)
    ensures var d := Copied(disk, source, LibraryPath(uid), now);
      forall q :: q in disk ==> q in d && (d[q] != disk[q] ==> StartsWith(q, LIBRARY_DIR))
    ensures var d := Copied(disk, source, LibraryPath(uid), now);
      forall q :: q in d && q !in disk ==> StartsWith(q, LIBRARY_DIR)
  {
    var dst := LibraryPath(uid);
    var d := Copied(disk, source, dst, now);
    if CopySucceeds(disk, source, dst) {
      if disk[source].File? {
        var t := CopyTarget(disk, source, dst);
        if t != dst {
          StartsWithAppend(dst, "/" + FileNameOf(source), LIBRARY_DIR);
          assert t == dst + ("/" + FileNameOf(source));
        }
      } else {
        var sub := SubtreeCopy(disk, source, dst, now);
        forall q | q in sub
          ensures StartsWith(q, LIBRARY_DIR)
        {
          var p :| p in disk && StartsWith(p, source + "/") && q == dst + p[|source|..];
          StartsWithAppend(dst, p[|source|..], LIBRARY_DIR);
        }
      }
    }
  }

  /** One import pass keeps every entry, and changes or adds only meta files and library entries. */
  lemma ImportOneKeepsAssets(st: Store, path: string, skip: string -> bool, uids: nat -> u64, now: int)
    ensures var r := ImportOne(st, path, skip, uids, now);
      st.drawn <= r.drawn
      && (forall q :: q in st.disk ==> q in r.disk)
      && (forall q :: q in r.disk && (q !in st.disk || r.disk[q] != st.disk[q]) ==>
            Contains(q, ".meta") || StartsWith(q, LIBRARY_DIR))
  {
    if !skip(path) {
      var m := MetaStep(st, path, uids, now);
      MetaPathIsMeta(path);
      assert forall q :: q in m.0.disk && (q !in st.disk || m.0.disk[q] != st.disk[q]) ==> q == MetaPath(path);
      var lib := LibraryPath(m.1);
      if lib !in m.0.disk {
        CopiedIntoLibrary(m.0.disk, path, m.1, now);
      }
    }
  }

  /**
   * The import never removes an entry, and never changes an asset: every
   * entry it adds or rewrites is a meta file or lies in the library.
   */
  lemma {:induction false} ImportAllKeepsAssets(st: Store, paths: seq<string>, skip: string -> bool, uids: nat -> u64, now: int)
    ensures var r := ImportAll(st, paths, skip, uids, now);
      st.drawn <= r.drawn
      && (forall q :: q in st.disk ==> q in r.disk)
      && (forall q :: q in st.disk && !Contains(q, ".meta") && !StartsWith(q, LIBRARY_DIR) ==> r.disk[q] == st.disk[q])
  {
    if paths != [] {
      var pre := paths[..|paths| - 1];
      ImportAllKeepsAssets(st, pre, skip, uids, now);
      ImportOneKeepsAssets(ImportAll(st, pre, skip, uids, now), paths[|paths| - 1], skip, uids, now);
    }
  }

  /** The last '/' of a library path is the one that ends the library folder's name. */
  lemma LibraryPathParent(uid: u64)
    ensures LastIndexOf(LibraryPath(uid), '/') == |LIBRARY_DIR| - 1
    ensures LibraryPath(uid)[..|LIBRARY_DIR| - 1] == "Assets/Library"
  {
    var digits := NatToString(uid);
    assert forall i :: 0 <= i < |digits| ==> digits[i] != '/';
    assert LibraryPath(uid) == "Assets/Library" + ['/'] + digits;
    LastIndexOfBeforeTail("Assets/Library", '/', digits);
  }

  /** The library folder's own name holds no dot, so it is never a meta path. */
  lemma LibraryFolderNotMeta(path: string)
    ensures "Assets/Library" != MetaPath(path)
  {
    MetaPathIsMeta(path);
    assert forall i :: 0 <= i < |"Assets/Library"| ==> "Assets/Library"[i] != '.';
    NoDotNoMeta("Assets/Library");
  }

  /** A meta path ends in 'a', a library path in a digit. */
  lemma MetaPathNotLibrary(path: string, uid: u64)
    ensures MetaPath(path) != LibraryPath(uid)
  {
    var digits := NatToString(uid);
    assert MetaPath(path)[|MetaPath(path)| - 1] == 'a';
    assert LibraryPath(uid)[|LibraryPath(uid)| - 1] == digits[|digits| - 1];
  }

  /**
   * Importing an asset file that is not skipped, with the library folder
   * in place and the meta file readable or writable: the meta file exists
   * afterwards, a library entry exists for the identifier, a library entry
   * that did not exist before holds the asset's bytes, and, for an asset
   * outside the library, the meta file holds a nonzero identifier.
   */
  lemma ImportOneStoresAsset(st: Store, path: string, skip: string -> bool, uids: nat -> u64, now: int)
    requires !skip(path) && path in st.disk && st.disk[path].File?
    requires "Assets/Library" in st.disk && st.disk["Assets/Library"].Dir?
    requires StoredUid(st.disk, MetaPath(path)) != 0 || CanWriteFile(st.disk, MetaPath(path))
    ensures var m := MetaStep(st, path, uids, now);
      var r := ImportOne(st, path, skip, uids, now);
      MetaPath(path) in r.disk && LibraryPath(m.1) in r.disk
      && (LibraryPath(m.1) !in st.disk ==> r.disk[LibraryPath(m.1)] == File(st.disk[path].data, now))
      && (m.1 != 0 && !StartsWith(path, LIBRARY_DIR) ==> StoredUid(r.disk, MetaPath(path)) == m.1)
  {
    var m := MetaStep(st, path, uids, now);
    var lib := LibraryPath(m.1);
    MetaStepIdempotent(st, path, uids, now, now);
    assert MetaPath(path) in m.0.disk;
    assert path != MetaPath(path);
    LibraryFolderNotMeta(path);
    MetaPathNotLibrary(path, m.1);
    if lib !in m.0.disk {
      LibraryPathParent(m.1);
      assert CanWriteFile(m.0.disk, lib);
      CopiedIntoLibrary(m.0.disk, path, m.1, now);
      if !StartsWith(path, LIBRARY_DIR) {
        MetaPathOutsideLibrary(path);
      }
    }
  }

  /** With library entries skipped, importing entries of the library (or meta files) changes nothing. */
  lemma {:induction false} LibraryEntriesIgnored(st: Store, paths: seq<string>, uids: nat -> u64, now: int)
    requires forall i :: 0 <= i < |paths| ==> StartsWith(paths[i], LIBRARY_DIR) || Contains(paths[i], ".meta")
    ensures ImportAll(st, paths, Skipped, uids, now) == st
  {
    if paths != [] {
      LibraryEntriesIgnored(st, paths[..|paths| - 1], uids, now);
    }
  }

  /** A small asset folder whose library already holds the entry "Assets/Library/7". */
  const SAMPLE: Disk := map["Assets" := Dir(0), "Assets/Library" := Dir(0), "Assets/Library/7" := File([1], 0)]

  /** The recursive walk of the asset folder lists the library entry of the sample. */
  lemma SampleListsLibraryEntry()
    ensures "Assets/Library/7" in ListedFiles(SAMPLE, "Assets", true)
  {
    var p := "Assets/Library/7";
    assert p[..7] == "Assets/";
    assert forall i :: 0 <= i < |p| ==> p[i] != '\\';
    ListedMember(SAMPLE, "Assets", p);
  }

  /** A regular file below a directory, with no '\\' in its path, is listed by the recursive walk. */
  lemma ListedMember(disk: Disk, dir: string, p: string)
    requires dir in disk && disk[dir].Dir? && p in disk && disk[p].File?
    requires StartsWith(p, dir + "/") && |p| > |dir| + 1 && '\\' !in p
    ensures p in ListedFiles(disk, dir, true)
  {
    NormalizeUnchanged(p);
    assert InDir(p, dir, true);
  }

  /** A path without '\\' is already normalised. */
  lemma NormalizeUnchanged(p: string)
    requires '\\' !in p
    ensures NormalizePath(p) == p
  {
  }

  /** The sample's library entry has no meta file yet, one can be written, and the entry for 8 is free. */
  lemma SampleMetaWritable()
    ensures StoredUid(SAMPLE, MetaPath("Assets/Library/7")) == 0
    ensures CanWriteFile(SAMPLE, MetaPath("Assets/Library/7"))
    ensures LibraryPath(8) == "Assets/Library/8" && LibraryPath(8) !in SAMPLE
    ensures MetaPath("Assets/Library/7") == "Assets/Library/7.meta"
  {
    var meta := MetaPath("Assets/Library/7");
    assert meta == "Assets/Library" + ['/'] + "7.meta";
    assert meta !in SAMPLE by {
      assert |meta| == 21;
    }
    LastIndexOfBeforeTail("Assets/Library", '/', "7.meta");
    assert meta[..14] == "Assets/Library";
    assert NatToString(8) == "8";
    assert LibraryPath(8)[15] == '8';
  }

  /** The sample's library entry is not a meta file. */
  lemma SampleNotMeta()
    ensures !SkippedAsWritten("Assets/Library/7")
  {
    var p := "Assets/Library/7";
    assert forall i :: 0 <= i < |p| ==> p[i] != '.';
    NoDotNoMeta(p);
  }

  /** An identifier generator that always answers 8. */
  function SampleUids(n: nat): u64
  {
    8
  }

  /**
   * As ResMan.cpp writes the loop, a library entry is imported like an
   * asset: the recursive walk of the asset folder lists it, and it gets a
   * meta file of its own and a second copy in the library.
   */
  lemma LibraryEntryReimported()
    ensures var r := ImportAll(Store(SAMPLE, 0), ["Assets/Library/7"], SkippedAsWritten, SampleUids, 1);
      "Assets/Library/7" in ListedFiles(SAMPLE, "Assets", true)
      && "Assets/Library/7.meta" in r.disk && "Assets/Library/8" in r.disk && "Assets/Library/8" !in SAMPLE
  {
    var p := "Assets/Library/7";
    SampleListsLibraryEntry();
    SampleMetaWritable();
    SampleNotMeta();
    var paths := [p];
    assert paths[..0] == [];
    assert ImportAll(Store(SAMPLE, 0), paths, SkippedAsWritten, SampleUids, 1)
      == ImportOne(Store(SAMPLE, 0), p, SkippedAsWritten, SampleUids, 1);
    assert MetaStep(Store(SAMPLE, 0), p, SampleUids, 1).1 == 8;
    ImportOneStoresAsset(Store(SAMPLE, 0), p, SkippedAsWritten, SampleUids, 1);
  }

  /** The identifier generator: the next value of a stream on each call. */
  class UidSource {
    const uids: nat -> u64
    var drawn: nat

    constructor(uids: nat -> u64)
      ensures this.uids == uids && drawn == 0
    {
      this.uids := uids;
      drawn := 0;
    }

    /** UUIDGen::GenerateUUID. */
    method Generate() returns (u: u64)
      modifies this`drawn
      ensures u == uids(old(drawn)) && drawn == old(drawn) + 1
    {
      u := uids(drawn);
      drawn := drawn + 1;
    }
  }

  class ResourceManager {
    /** The cache, by library path; only meshes are ever created. */
    var resources: map<string, Mesh>

    constructor()
      ensures resources == map[]
    {
      resources := map[];
    }

    /**
     * ResourceManager::InternalLoad: a cached path returns its resource;
     * a type name without "Mesh" returns nothing; otherwise a new mesh
     * takes the path as its library path, loads it, and is cached.
     */
    method InternalLoad(path: string, typeName: string, fs: FileSystem, gl: Context, ops: FloatOps) returns (r: Mesh?)
      requires gl.Valid()
      modifies this`resources, gl`live, gl`next, gl`buffers
      ensures gl.Valid()
      ensures path in old(resources) ==> r == old(resources)[path] && resources == old(resources) && unchanged(gl)
      ensures path !in old(resources) && !Contains(typeName, "Mesh") ==>
        r == null && resources == old(resources) && unchanged(gl)
      ensures path !in old(resources) && Contains(typeName, "Mesh") ==>
        r != null && fresh(r) && fresh(r.base) && resources == old(resources)[path := r]
        && r.base.libraryPath == path
        && if LibraryFileReadable(path, fs.disk) && ValidArtifact(fs.disk[path].data) then
             r.vertices == ArtifactVertices(fs.disk[path].data) && r.indices == ArtifactIndices(fs.disk[path].data)
             && Uploaded(r, gl)
           else
             r.vertices == [] && r.indices == []
    {
      if path in resources {
        return resources[path];
      }
      if !Contains(typeName, "Mesh") {
        return null;
      }
      var m := new Mesh.Empty();
      m.base.SetLibraryPath(path);
      m.Load(fs, gl, ops);
      resources := resources[path := m];
      r := m;
    }

    /** ResourceManager::CleanUp: the cache is emptied. */
    method CleanUp()
      modifies this`resources
      ensures resources == map[]
    {
      if resources != map[] {
        resources := map[];
      }
    }

    /** ResourceManager::GetOrCreateMeta. */
    method GetOrCreateMeta(path: string, fs: FileSystem, gen: UidSource, now: int) returns (uid: u64)
      modifies fs, gen`drawn
      ensures (Store(fs.disk, gen.drawn), uid) == MetaStep(Store(old(fs.disk), old(gen.drawn)), path, gen.uids, now)
    {
      var metaPath := path + ".meta";
      if fs.Exists(metaPath) {
        var contents := fs.ReadFile(metaPath);
        if contents.Some? {
          var stored := ReadMetaUid(BytesText(contents.value));
          if stored != 0 {
            return stored;
          }
        }
      }
      uid := gen.Generate();
      var time := fs.GetLastModTime(path);
      var _ := fs.WriteFile(metaPath, MetaBytes(uid, time), now);
    }

    /** ResourceManager::SaveToLibrary: the asset is copied to its library path. */
    method SaveToLibrary(assetPath: string, uid: u64, fs: FileSystem, now: int)
      modifies fs
      ensures fs.disk == Copied(old(fs.disk), assetPath, LibraryPath(uid), now)
    {
      var _ := fs.Copy(assetPath, LibraryPath(uid), now);
    }

    /**
     * ResourceManager::ImportAssets: every file the recursive walk of the
     * asset folder lists, other than meta files and the library's own
     * entries, gets its identifier and, when its library entry is missing,
     * a library copy.
     */
    method ImportAssets(fs: FileSystem, gen: UidSource, now: int) returns (ghost files: seq<string>)
      modifies fs, gen`drawn
      ensures forall f :: f in files <==> f in ListedFiles(old(fs.disk), "Assets", true)
      ensures Store(fs.disk, gen.drawn) == ImportAll(Store(old(fs.disk), old(gen.drawn)), files, Skipped, gen.uids, now)
    {
      var all := fs.GetAllFiles("Assets", true);
      files := all;
      ghost var start := Store(fs.disk, gen.drawn);
      var i := 0;
      while i < |all|
        invariant 0 <= i <= |all|
        invariant Store(fs.disk, gen.drawn) == ImportAll(start, all[..i], Skipped, gen.uids, now)
      {
        assert all[..i + 1][..i] == all[..i];
        var path := all[i];
        if !Skipped(path) {
          var uid := GetOrCreateMeta(path, fs, gen, now);
          var libraryPath := LibraryPath(uid);
          var libraryExists := fs.Exists(libraryPath);
          if !libraryExists {
            SaveToLibrary(path, uid, fs, now);
          }
        }
        i := i + 1;
      }
      assert all[..|all|] == all;
    }
  }
}
