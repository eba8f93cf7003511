/**
 * The common part of every resource (Resource.h): its kind, the file name
 * it was created for, its identifier and the two paths it is known by. The
 * `loaded` flag and the (identifier, kind) constructor are the ones
 * ResourceMesh.cpp and ResourceTexture.cpp use.
 */
module Resources {
  import opened Common
  import opened FileSystem

  datatype ResourceType = Unknown | MeshResource | TextureResource | ModelResource

  class Resource {
    const kind: ResourceType
    const fileName: string
    var uid: u64
    var assetsPath: string
    var libraryPath: string
    var loaded: bool

    /** Resource(type, fileName): identifier 0, no paths, not loaded. */
    constructor(kind: ResourceType, fileName: string)
      ensures this.kind == kind && this.fileName == fileName
      ensures uid == 0 && assetsPath == "" && libraryPath == "" && !loaded
    {
      this.kind := kind;
      this.fileName := fileName;
      uid := 0;
      assetsPath := "";
      libraryPath := "";
      loaded := false;
    }

    /** Resource(uid, type), as the mesh and texture resources construct their base. */
    constructor WithUid(uid: u64, kind: ResourceType)
      ensures this.kind == kind && this.fileName == "" && this.uid == uid
      ensures assetsPath == "" && libraryPath == "" && !loaded
    {
      this.kind := kind;
      fileName := "";
      this.uid := uid;
      assetsPath := "";
      libraryPath := "";
      loaded := false;
    }

    method SetAssetsPath(p: string)
      modifies this`assetsPath
      ensures assetsPath == p
    {
      assetsPath := p;
    }

    method SetLibraryPath(p: string)
      modifies this`libraryPath
      ensures libraryPath == p
    {
      libraryPath := p;
    }

    method SetUID(id: u64)
      modifies this`uid
      ensures uid == id
    {
      uid := id;
    }
  }

  /** The first step of loading a resource: it has a library path and that file can be opened for reading. */
  predicate LibraryFileReadable(libraryPath: string, disk: Disk)
  {
    libraryPath != "" && libraryPath in disk && disk[libraryPath].File?
  }
}
