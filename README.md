# A verified model of the helloworld engine's asset pipeline

This project is a Dafny model of the core of the `helloworld` OpenGL engine,
limited to its asset pipeline and the in-memory structures around it. The
model covers:

- the resource manager: its cache of loaded meshes, the `.meta` sidecar
  files that give every asset a 64-bit identifier, and the start-up scan
  that copies each asset into `Assets/Library/<uid>`;
- the engine's own binary formats: `.vroom` meshes (two `uint32` counts,
  eight float words per vertex, then the indices) and `.vroom_tex` textures
  (three `int` header fields, then the pixels). Both have an encoder, a
  decoder and a round-trip proof;
- the lifecycles of mesh and texture resources, which move between
  unloaded and loaded and hold OpenGL names;
- the scene graph: game objects, their components, and parent/child links
  with no duplicate children. It also covers destroy marking and
  compaction, the texture cache of a model, and saving and loading a scene
  as JSON (JSON is a small tree datatype here);
- the file-system module over an abstract disk (a map from path to entry);
- the per-frame keyboard and mouse state machine and dropped-file dispatch;
- the application's module loops, which stop at the first module that
  answers false, and the gating of the update phases within a frame.

Floats are IEEE single-precision bit patterns (`Common.Float32`, a 32-bit
word). The bounding box compares them in the IEEE order, written out on
the bit patterns (`Meshes.FloatLess`, `MinF`, `MaxF`, with NaN compared as
the C++ `<` does). The face-normal arithmetic of `CalculateNormals` is a
parameter of type `Meshes.FloatOps`, which holds the face normal and the
vector sum. The OpenGL context is a class
that hands out fresh nonzero names and records uploads, draws and binds
(`Gl.Context`). Clocks, the identifier generator and the image and mesh
decoders are inputs.

There are fifteen modules, one file each:

- `common.dfy`: bytes, words, little-endian codecs, `Filter`.
- `strings.dfy`: decimal text, `stoull`, `getline`, lower-casing.
- `gl.dfy`: the OpenGL context.
- `filesystem.dfy`: `FileSystem.cpp`.
- `resource.dfy`: `Resource.h`.
- `texture_importer.dfy`: `TextureImporter.cpp` and `ResourceTexture.cpp`.
- `textures.dfy`: `Textures.cpp`.
- `model_importer.dfy`: `ModelImporter.cpp` and `ResourceMesh.cpp`.
- `mesh.dfy`: `Mesh.cpp`.
- `scene_graph.dfy`: `Gameobject.cpp`, `GameObject.h` and
  `RenderMeshComponent.cpp`.
- `model.dfy`: `Model.cpp`.
- `scene_serializer.dfy`: `SceneSerializer.cpp`.
- `input.dfy`: `Input.cpp`.
- `application.dfy`: `Application.cpp`.
- `resman.dfy`: `ResMan.cpp`.

## Model

| member | source | states |
|---|---|---|
| Application.FirstRefusal | helloworld/src/Application.cpp:70-78 | the position where a phase loop stops: every module before it answered true, and it is the module count or a module that answered false |
| Application.PhaseStopsAtFirstRefusal | helloworld/src/Application.cpp:70-78 | a phase calls the modules in order from the first, stops after the first false answer, reports failure exactly when the last module called answered false, and calls every module when it succeeds |
| Application.RanPhaseCalls | helloworld/src/Application.cpp:70-78 | a phase loop calls only its own callback, and does so exactly when there is at least one module |
| Application.RanFrame | helloworld/src/Application.cpp:98-119 | exactly which phases a frame calls, given the quit flag and the modules' answers |
| Application.FrameGating | helloworld/src/Application.cpp:104-117 | a frame always ends with FinishUpdate; module updates and object picking run exactly when no quit was seen and every pre-update succeeded; post-updates run exactly when, in addition, every update succeeded |
| Application.Application.constructor | helloworld/src/Application.cpp:23-51 | the eight modules are added in their fixed order, each initialised as it is added, and exit is not requested |
| Application.Application.AddModule | helloworld/src/Application.cpp:59-62 | the module is initialised and then appended, so module order is insertion order |
| Application.Application.RunPhase | helloworld/src/Application.cpp:70-78 | the shared loop returns true exactly when every module answers true, and records the calls of the short-circuiting phase |
| Application.Application.Awake | helloworld/src/Application.cpp:65-79 | Awake succeeds exactly when every module answers true; the calls stop at the first refusal |
| Application.Application.Start | helloworld/src/Application.cpp:82-95 | the same short-circuit contract for Start |
| Application.Application.PreUpdate | helloworld/src/Application.cpp:151-163 | the same short-circuit contract for PreUpdate |
| Application.Application.DoUpdate | helloworld/src/Application.cpp:166-179 | the same short-circuit contract for the module updates, and object picking runs afterwards whatever the modules answered |
| Application.Application.PostUpdate | helloworld/src/Application.cpp:182-194 | the same short-circuit contract for PostUpdate |
| Application.Application.CleanUp | helloworld/src/Application.cpp:122-135 | the same short-circuit contract for CleanUp, in module order |
| Application.Application.FinishUpdate | helloworld/src/Application.cpp:143-148 | when a model is loaded, its game-object list keeps exactly the objects not marked for destroy, in order |
| Application.Application.Update | helloworld/src/Application.cpp:98-119 | when exit was requested, the result is false and nothing is called or changed; otherwise the gated phases run, FinishUpdate always follows, and the loaded scene keeps exactly its objects that were not marked for destroy |
| Application.Application.RunFrame | helloworld/src/Application.cpp:104-115 | the frame succeeds exactly when no quit was seen and all three phases succeed; each phase runs only after the previous one succeeded |
| Common.WordBytes | helloworld/src/ModelImporter.cpp:94-95 | a 32-bit word is written as exactly four bytes |
| Common.BytesAt | helloworld/src/TextureImporter.cpp:76-77 | reading n bytes gives n bytes, each the stored byte or zero past the end of the file |
| Common.BytesRoundTrip | helloworld/src/TextureImporter.cpp:51 | a block of bytes written at some offset reads back unchanged from that offset |
| Common.WrapI32 | helloworld/src/TextureImporter.cpp:75 | an int result is the mathematical value whenever that value fits in 32 bits |
| Common.I32WordRoundTrip | helloworld/src/TextureImporter.cpp:45-47 | an int written as its two's-complement word reads back as the same int |
| Common.WordRoundTrip | helloworld/src/ModelImporter.cpp:94-95 | a word written little-endian at some offset reads back as that word from that offset, whatever surrounds it |
| Common.BlockRoundTrip | helloworld/src/ModelImporter.cpp:96-99 | a block of words written at some offset reads back as the same block |
| Common.Filter | helloworld/src/FileSystem.cpp:107-111 | filtering never lengthens a sequence |
| Common.FilterMembers | helloworld/src/FileSystem.cpp:107-111 | a filtered sequence holds only elements of the input that pass the test, and every element that passes is kept |
| Common.FilterIsSubsequence | helloworld/src/FileSystem.cpp:107-111 | filtering keeps the relative order of the elements it keeps |
| Common.FilterSnoc | helloworld/src/FileSystem.cpp:107-111 | each loop step appends the current element exactly when it passes the test |
| Common.FilterNoDuplicates | helloworld/src/FileSystem.cpp:107-111 | filtering a list without repeats yields one without repeats |
| Common.ReplaceAll | helloworld/src/FileSystem.cpp:130 | std::replace keeps the length and replaces exactly the matching characters |
| Strings.NatToString | helloworld/src/ResMan.cpp:98 | std::to_string gives a non-empty digit string with no leading zero (except "0") |
| Strings.NatToStringValue | helloworld/src/ResMan.cpp:98 | the decimal text of a number denotes that number |
| Strings.NatToStringInjective | helloworld/src/ResMan.cpp:98 | distinct identifiers have distinct decimal texts, so distinct library file names |
| Strings.IntToString | helloworld/src/ResMan.cpp:146 | the decimal text of a signed value starts with '-' exactly when the value is negative |
| Strings.SkipSpace | helloworld/src/ResMan.cpp:125 | std::stoull skips a suffix of leading white space, and what remains does not start with a space |
| Strings.DigitPrefixLength | helloworld/src/ResMan.cpp:125 | std::stoull reads the longest run of digits |
| Strings.StoullOfNatToString | helloworld/src/ResMan.cpp:125 | the decimal text of a 64-bit value parses back to that value |
| Strings.IndexOf | helloworld/src/ResMan.cpp:121 | find gives the first occurrence of a character, or -1 exactly when the character is absent |
| Strings.LastIndexOf | helloworld/src/Model.cpp:32-37 | find_last_of gives the last occurrence of a character, or -1 exactly when the character is absent |
| Strings.Lines | helloworld/src/ResMan.cpp:120 | no line std::getline reads contains a '\n' |
| Strings.LinesOfTerminated | helloworld/src/ResMan.cpp:120-132 | reading back text written as '\n'-terminated lines gives those lines |
| Strings.ToLower | helloworld/src/FileSystem.cpp:144 | lower-casing keeps the length and lower-cases each character on its own |
| Strings.ToLowerIdempotent | helloworld/src/FileSystem.cpp:142-146 | a lower-cased text has no upper-case letter, and lower-casing it again changes nothing |
| Strings.TextRoundTrip | helloworld/src/ResMan.cpp:144-146 | one-byte text written to a stream reads back unchanged |
| Gl.ChannelFormat | helloworld/src/TextureImporter.cpp:84-87 | the channel-count switch never chooses a two-component format |
| Gl.ChannelFormatMatches | helloworld/src/TextureImporter.cpp:84-87 | the chosen format has as many components as the image has channels exactly for 1, 3 and 4 channels |
| TextureImporter.TwoChannelsReadPastBuffer | helloworld/src/TextureImporter.cpp:84-89 | a decoded two-channel image uploaded in the format the channel switch picks is read as RGB: the upload reads more bytes than its pixel buffer holds |
| Gl.CorrectedChannelFormatMatches | helloworld/src/TextureImporter.cpp:84-87 | the corrected choice matches every channel count from 1 to 4, and agrees with the original for every count except 2 |
| Gl.Context.Gen | helloworld/src/ModelImporter.cpp:128-130 | glGen* returns a nonzero name that no live object has, and makes it live |
| Gl.Context.Delete | helloworld/src/ResourceMesh.cpp:34-45 | glDelete* releases the name and whatever was uploaded to it |
| Gl.Context.BufferData | helloworld/src/ModelImporter.cpp:136-139 | glBufferData replaces the contents of exactly that buffer |
| Gl.Context.TexImage | helloworld/src/TextureImporter.cpp:89 | glTexImage2D replaces the image of exactly that texture |
| Gl.Context.Draw | helloworld/src/ResourceMesh.cpp:48-54 | a draw call on the vertex array with the index count is recorded |
| Gl.Context.Bind | helloworld/src/ResourceTexture.cpp:37-38 | a bind of the texture to the unit is recorded |
| Gl.GenIfUnnamed | helloworld/src/TextureImporter.cpp:81 | a nonzero name is kept; a zero name is replaced by a fresh one, and only that one becomes live |
| Resources.Resource.constructor | helloworld/src/Resource.h:15-17 | a resource takes the given type and file name, identifier 0, and empty asset and library paths |
| Resources.Resource.WithUid | helloworld/src/ResourceMesh.cpp:5 | the (uid, type) base constructor the mesh and texture resources use: that identifier and type, no paths, not loaded |
| Resources.Resource.SetAssetsPath | helloworld/src/Resource.h:25-26 | the asset path reads back as set, and nothing else changes |
| Resources.Resource.SetLibraryPath | helloworld/src/Resource.h:28-29 | the library path reads back as set, and nothing else changes |
| Resources.Resource.SetUID | helloworld/src/Resource.h:31-32 | the identifier reads back as set, and nothing else changes |
| ModelImporter.VertexWords | helloworld/src/ModelImporter.cpp:35-59 | every vertex contributes exactly eight floats |
| ModelImporter.Interleave | helloworld/src/ModelImporter.cpp:35-59 | a block of n vertices is exactly 8n floats |
| ModelImporter.Deinterleave | helloworld/src/Mesh.cpp:268-271 | grouping 8n floats gives n vertices |
| ModelImporter.DeinterleaveInterleave | helloworld/src/Mesh.cpp:268-271 | reading vertices back eight floats at a time inverts the writer's interleaving |
| ModelImporter.ImportedVertices | helloworld/src/ModelImporter.cpp:35-59 | the vertex list has one entry per source vertex, and entry v is that vertex with zeros for missing normals and UVs |
| ModelImporter.TriangleIndices | helloworld/src/ModelImporter.cpp:62-69 | the kept index count is a multiple of three and at most three per face |
| ModelImporter.TriangleIndicesFromTriangles | helloworld/src/ModelImporter.cpp:62-69 | every kept index comes from a face with exactly three corners |
| ModelImporter.EncodeMesh | helloworld/src/ModelImporter.cpp:93-99 | a mesh file is 8 header bytes, 32 bytes per vertex and 4 bytes per index |
| ModelImporter.DecodeMesh | helloworld/src/ModelImporter.cpp:114-124 | what is read always has as many floats and indices as the header announces |
| ModelImporter.MeshRoundTrip | helloworld/src/ModelImporter.cpp:93-124 | decoding an encoded mesh gives back the same counts, floats and indices |
| ModelImporter.MeshDataOf | helloworld/src/ModelImporter.cpp:77 | the counts handed to SaveToLibrary agree with the arrays: the vertex count is the float count over eight |
| ModelImporter.MeshLibraryPathsDistinct | helloworld/src/ModelImporter.cpp:73-75 | different meshes of one import are written to different files |
| ModelImporter.MeshLibraryPathParent | helloworld/src/ModelImporter.cpp:75 | a mesh file lies directly in the destination directory |
| ModelImporter.ImportedDiskFrame | helloworld/src/ModelImporter.cpp:27-80 | Import changes no path other than its own mesh files |
| ModelImporter.ImportedDiskContents | helloworld/src/ModelImporter.cpp:27-80 | the file of mesh i holds the encoding of mesh i whenever its stream could be opened |
| ModelImporter.ImportedDiskLast | helloworld/src/ModelImporter.cpp:27-80 | writing the earlier meshes never stops a later mesh's file from being opened |
| ModelImporter.SaveToLibrary | helloworld/src/ModelImporter.cpp:86-102 | the header and the announced floats and indices are written to the path when it opens, and nothing changes when it does not |
| ModelImporter.Import | helloworld/src/ModelImporter.cpp:15-84 | the result is false exactly when the scene is missing or has no root, and then nothing is written; otherwise every mesh is written to its own file |
| ModelImporter.ImportMesh | helloworld/src/ModelImporter.cpp:28-77 | one mesh's loop body writes the encoding of that mesh's interleaved vertices and triangle indices to its file |
| ModelImporter.SavedMeshData | helloworld/src/ModelImporter.cpp:77 | the arguments given to SaveToLibrary describe exactly that mesh's data |
| ModelImporter.InterleaveVertices | helloworld/src/ModelImporter.cpp:35-59 | the vertex loop produces 8 floats per vertex, equal to the interleaving of the imported vertices |
| ModelImporter.VertexFloats | helloworld/src/ModelImporter.cpp:37-57 | the floats pushed for one vertex are its position, its normal (or zeros) and its UV (or zeros), in that order |
| ModelImporter.InterleaveAt | helloworld/src/ModelImporter.cpp:35-59 | float k of vertex v sits at position 8v + k |
| ModelImporter.CollectTriangles | helloworld/src/ModelImporter.cpp:62-69 | the face loop keeps the indices of the three-corner faces, in face order |
| ModelImporter.ResourceMesh.constructor | helloworld/src/ResourceMesh.cpp:5-12 | a new mesh resource has no GPU names, zero counts, and is not loaded |
| ModelImporter.ResourceMesh.LoadInMemory | helloworld/src/ResourceMesh.cpp:18-28 | nothing changes when already loaded; otherwise it ends loaded exactly when the importer's Load succeeds, with that Load's effect |
| ModelImporter.ResourceMesh.FreeMemory | helloworld/src/ResourceMesh.cpp:30-46 | nothing changes when not loaded; otherwise its nonzero names are deleted, names and counts become zero, and it is no longer loaded |
| ModelImporter.ResourceMesh.BindAndDraw | helloworld/src/ResourceMesh.cpp:48-54 | one draw of indexCount indices is issued when loaded, none otherwise, and it never loads |
| ModelImporter.Names | helloworld/src/ResourceMesh.cpp:34-43 | exactly the nonzero names among the three |
| ModelImporter.DeleteIfNamed | helloworld/src/ResourceMesh.cpp:34-43 | a nonzero name and its contents are released; a zero name releases nothing |
| ModelImporter.AllocatedFloats | helloworld/src/ModelImporter.cpp:120 | the allocation size is a 32-bit product, a multiple of eight |
| ModelImporter.AllocationMatchesReadBelowWrap | helloworld/src/ModelImporter.cpp:120-123 | the allocation holds what is read exactly when the announced vertex count is below 2^29, and is never larger |
| ModelImporter.AllocationWrapsToEmpty | helloworld/src/ModelImporter.cpp:120-123 | a header announcing 2^29 vertices allocates nothing and then reads 2^32 floats |
| ModelImporter.Load | helloworld/src/ModelImporter.cpp:104-165 | it succeeds exactly when the library path is non-empty and opens. On success each missing name is generated, the floats and indices are uploaded, and indexCount is the header's. On failure nothing changes |
| Meshes.Extend | helloworld/src/Mesh.cpp:68-75 | one loop step moves each lower bound to std::min of it and the coordinate, and each upper bound to std::max |
| Meshes.AabbNotNaN | helloworld/src/Mesh.cpp:60-77 | the box bounds are never NaN, because std::min and std::max never take a NaN coordinate over the accumulator |
| Meshes.AabbContains | helloworld/src/Mesh.cpp:60-77 | every coordinate that is a number lies between the lower and upper bound of its axis |
| Meshes.AabbMinSentinel | helloworld/src/Mesh.cpp:62-70 | when no coordinate of an axis is a number below the largest float (an empty mesh in particular), the lower bound stays at the largest float |
| Meshes.AabbMaxSentinel | helloworld/src/Mesh.cpp:63-75 | when no coordinate of an axis is a number above the lowest float (an empty mesh in particular), the upper bound stays at the lowest float |
| Meshes.AabbMinAttained | helloworld/src/Mesh.cpp:66-70 | once some coordinate of an axis is a number, the lower bound is some vertex's coordinate |
| Meshes.AabbMaxAttained | helloworld/src/Mesh.cpp:66-76 | once some coordinate of an axis is a number, the upper bound is some vertex's coordinate |
| Meshes.Resized | helloworld/src/Mesh.cpp:217 | std::vector::resize gives exactly n entries: the old ones kept, the new ones the fill value |
| Meshes.AddFace | helloworld/src/Mesh.cpp:221-235 | adding one triangle's normal keeps the list one entry per vertex |
| Meshes.SumFaceNormals | helloworld/src/Mesh.cpp:220-237 | the index walk, three at a time, leaves the normals after every triangle has been added |
| Meshes.AddTriangleNormal | helloworld/src/Mesh.cpp:221-235 | one loop body adds triangle f's face normal to its three corners, in order |
| Meshes.NormalsAfter | helloworld/src/Mesh.cpp:220-237 | the normals after any number of triangles still number one per vertex |
| Meshes.UnreferencedNormalKept | helloworld/src/Mesh.cpp:233-235 | a vertex that no triangle names keeps the normal it had before the sums |
| Meshes.NormalsOf | helloworld/src/Mesh.cpp:216-245 | after CalculateNormals there is exactly one normal per vertex |
| Meshes.ReadVertices | helloworld/src/Mesh.cpp:268-272 | the vertex loop reads exactly the announced number of vertices, vertex i from its own 32 bytes |
| Meshes.ReadVerticesDeinterleave | helloworld/src/Mesh.cpp:268-272 | reading position, normal and UV per vertex is reading the float block eight floats at a time |
| Meshes.ReadVertexDeinterleave | helloworld/src/Mesh.cpp:269-271 | vertex i read from the file is vertex i of the deinterleaved float block |
| Meshes.ImportedMeshReadsBack | helloworld/src/Mesh.cpp:258-273 | Mesh::Load reads exactly the vertices and triangle indices that ModelImporter::Import wrote for a mesh |
| Meshes.ImportedMeshValid | helloworld/src/ModelImporter.cpp:62-69 | when the faces name only existing vertices, the file Import writes passes the index check the normal pass needs |
| Meshes.UncheckedIndicesReachNormals | helloworld/src/Mesh.cpp:264-279 | as written, a file announcing no vertices and the triangle (0, 0, 0) is read in full and then handed to the normal pass, which reads a vertex that does not exist |
| Meshes.Mesh.Empty | helloworld/src/Mesh.h:46 | the default mesh is an empty mesh resource named "EmptyMesh", with the reset box of Mesh.h:28-29 |
| Meshes.Mesh.constructor | helloworld/src/Mesh.cpp:11-24 | a mesh built from vertices and indices is named "Mesh", holds them, is uploaded under three new names (the only names that become live), with the interleaved vertices in the vertex buffer and the indices in the index buffer, and has its normals and box computed |
| Meshes.Mesh.SetupMesh | helloworld/src/Mesh.cpp:30-58 | three new names every call, with the interleaved vertices in the vertex buffer and the indices in the element buffer |
| Meshes.Mesh.CalculateAABB | helloworld/src/Mesh.cpp:60-77 | the box is the reset box extended by each vertex position in turn, so it has every property proved of AabbOf |
| Meshes.Mesh.CalculateNormals | helloworld/src/Mesh.cpp:216-245 | the normals are the list resized to one entry per vertex with each triangle's normal summed onto its corners; the normalising loop changes nothing |
| Meshes.Mesh.Load | helloworld/src/Mesh.cpp:247-283 | nothing changes for an empty path, a file that does not open, or indices that do not form whole triangles over the vertices; otherwise the mesh takes the file's vertices and indices, three new names become live, and the two buffers hold the interleaved vertices and the indices; normals and box are recomputed |
| Meshes.Mesh.Reload | helloworld/src/Mesh.cpp:277-280 | the read data replaces the mesh, which is uploaded again under three new names whose buffers hold the interleaved vertices and the indices, and has its normals and box recomputed |
| Meshes.ReadArtifactVertices | helloworld/src/Mesh.cpp:259-272 | the read loop produces the announced vertices of the file, in file order |
| Meshes.CheckTriangles | helloworld/src/Mesh.cpp:220-235 | the check accepts exactly the index lists made of whole triangles whose corners exist |
| SceneGraph.Component.constructor | helloworld/src/RenderMeshComponent.cpp:8-10 | a new component has its kind and owner, is active, and holds no mesh |
| SceneGraph.Component.SetMesh | helloworld/src/RenderMeshComponent.cpp:23-26 | the reference is stored; null touches nothing; a non-null mesh goes through LoadInMemory, which does nothing when it is already loaded |
| SceneGraph.Component.Render | helloworld/src/RenderMeshComponent.cpp:28-50 | an inactive component, a missing shader or a missing mesh changes nothing. Otherwise the mesh ends loaded when it was or its file opens, whether or not it is then drawn; a loaded mesh keeps its names and buffers, and an unloaded one ends in the state the importer's Load gives it (names, buffer contents, counts). One draw is issued exactly when it is loaded and its owner exists and has a transform |
| SceneGraph.IndexOfType | helloworld/src/Gameobject.cpp:56-63 | the position of the first component of the kind, or -1 exactly when there is none |
| SceneGraph.GameObject.constructor | helloworld/src/GameObject.h:16 | a new object has its name, is active, unselected, unmarked and not empty, and has no owner, parent, children or components (GameObject.h:40, 63-68) |
| SceneGraph.GameObject.AddComponent | helloworld/src/Gameobject.cpp:28-54 | a transform, mesh renderer or material is appended as exactly one new component owned by this object; any other kind returns null and leaves the list alone |
| SceneGraph.GameObject.GetComponent | helloworld/src/Gameobject.cpp:56-63 | the first component of the kind, or null when there is none |
| SceneGraph.GameObject.RemoveComponent | helloworld/src/Gameobject.cpp:65-75 | every component of the kind is removed, and all the others are kept in their order |
| SceneGraph.GameObject.GetComponentCount | helloworld/src/GameObject.h:26 | the count is the length of the component list |
| SceneGraph.GameObject.SetName | helloworld/src/GameObject.h:44 | the name reads back as set |
| SceneGraph.GameObject.MarkForDestroy | helloworld/src/GameObject.h:47 | the object is marked for destroy afterwards; no method clears the mark |
| SceneGraph.GameObject.SetAsEmpty | helloworld/src/GameObject.h:48-50 | the object is flagged empty afterwards |
| SceneGraph.GameObject.SetOwnerModel | helloworld/src/GameObject.h:52-54 | the owner reads back as the model last set |
| SceneGraph.GameObject.SetActive | helloworld/src/Gameobject.cpp:77-82 | the flag is set on this object and every descendant |
| SceneGraph.GameObject.AddChild | helloworld/src/Gameobject.cpp:105-114 | null and a listed child change nothing; otherwise the child is appended and its parent becomes this object; the children list never gains a duplicate |
| SceneGraph.GameObject.AddChildAcyclic | helloworld/src/Gameobject.cpp:105-114 | as AddChild, except that this object and its ancestors are refused as children; the children links then stay ranked over the same objects |
| SceneGraph.GameObject.Reaches | helloworld/src/Gameobject.cpp:105-114 | a walk over the children finds the target exactly when it is in the object's subtree |
| SceneGraph.AddEdgeRanked | helloworld/src/Gameobject.cpp:105-114 | a link to an object whose subtree does not hold the parent keeps the graph ranked, once the ancestors of the new parent rise above the child |
| SceneGraph.AncestorsClosed | helloworld/src/Gameobject.cpp:105-114 | the new parent is its own ancestor, the child is not, and the parent of an ancestor is an ancestor |
| SceneGraph.RaisedRanked | helloworld/src/Gameobject.cpp:105-114 | raising a parent-closed set that holds the new parent but not the child keeps every link going down and adds the new one |
| SceneGraph.RankedAfterLink | helloworld/src/Gameobject.cpp:105-114 | any ranking under which the old links go down and the child sits below the new parent ranks the graph with the new link |
| SceneGraph.SelfChildCycle | helloworld/src/Gameobject.cpp:105-114 | AddChild accepts an object as its own child, and no shape ranks the result |
| SceneGraph.GameObject.FindChild | helloworld/src/Gameobject.cpp:119 | std::find gives the first position of the child, or -1 |
| SceneGraph.GameObject.RemoveChild | helloworld/src/Gameobject.cpp:116-124 | null and an absent child change nothing; otherwise the first occurrence is erased and the parent link cleared; without duplicates the child is then gone |
| SceneGraph.GameObject.SetParent | helloworld/src/Gameobject.cpp:84-95 | the object leaves its old parent's children, its parent becomes the new parent, and it is appended to the new parent's children unless already listed there; this holds also when the object is, or becomes, its own parent, which lists it among its own children |
| SceneGraph.GameObject.Detach | helloworld/src/Gameobject.cpp:85-88 | the object leaves the children of its current parent: the first occurrence is erased |
| SceneGraph.FirstIndex | helloworld/src/Gameobject.cpp:109 | the first position of an element, or -1 exactly when it is absent |
| SceneGraph.RemoveFirst | helloworld/src/Gameobject.cpp:121 | erasing the found position removes exactly one element |
| SceneGraph.RemoveFirstNoDuplicates | helloworld/src/Gameobject.cpp:119-122 | without duplicates, erasing a child leaves no trace of it, keeps every other child, and stays duplicate-free |
| SceneGraph.ForestStep | helloworld/src/Gameobject.cpp:79-81 | one step of a walk over the children: the child's subtree lies within the parent's, leaves the parent out, and joins the forest of the children walked so far |
| Models.Substr | helloworld/src/Model.cpp:35-37 | std::string::substr gives the characters from pos, count of them, or all the rest when fewer remain |
| Models.SplitAt | helloworld/src/Model.cpp:32-37 | the split keeps the normalised path as the full path |
| Models.SplitAtFields | helloworld/src/Model.cpp:35-37 | under size_t arithmetic, the extension is the text after the last '.', the directory the text before the last '/' (all of it when there is none), and the name runs from after the last '/' to the last '.' when that comes later, else to the end |
| Models.SplitModelPathFields | helloworld/src/Model.cpp:32-37 | the split of a path is the split of its normalised form at its last '.' and last '/' |
| Models.SplitModelPathParts | helloworld/src/Model.cpp:32-37 | with a '/' and a later '.', the path is directory + '/' + name + '.' + extension; the name has no '/' and the extension has neither '/' nor '.' |
| Models.SplitModelPathNoSlash | helloworld/src/Model.cpp:36-37 | without a '/', the directory is the whole path and the name starts at the front |
| Models.SplitModelPathNoDot | helloworld/src/Model.cpp:35-37 | without a '.', the extension is the whole path (npos + 1 wraps to 0) and the name is the last component |
| Models.SplitModelPathDotInDirectory | helloworld/src/Model.cpp:35-37 | with a '.' only before the last '/', the extension runs across the '/' and the name length wraps, so the name is the whole last component |
| Models.Flatten | helloworld/src/Model.cpp:361-366 | the flattened list holds at least the last face's indices |
| Models.FlattenIndices | helloworld/src/Model.cpp:361-366 | the two nested loops produce every face's indices, in order, face after face |
| Models.FlattenTriangles | helloworld/src/Model.cpp:361-366 | on triangulated faces the flattened list is the one the importer writes, three indices per face |
| Models.CascadeShrinks | helloworld/src/Model.cpp:472-480 | skipping below more marked objects reaches fewer objects |
| Models.CascadeClosed | helloworld/src/Model.cpp:472-480 | an object the walk reaches has its own walk inside the first one |
| Models.CascadeGrows | helloworld/src/Model.cpp:472-480 | marks made by an earlier part of the walk only hide objects that those marks already cover |
| Models.CascadeForestSkipOutside | helloworld/src/Model.cpp:472-480 | a mark on an object outside the children's subtrees does not change their walk |
| Models.CascadeForestStep | helloworld/src/Model.cpp:473-479 | the walk over one more child adds that child's walk, unless the child was marked |
| Models.MarkStep | helloworld/src/Model.cpp:473-479 | walking a child from the marks the loop has reached adds the same as walking it from the first marks |
| Models.CascadeInSubtree | helloworld/src/Model.cpp:472-480 | the destroy walk never leaves the subtree it starts from |
| Models.MarkChildren | helloworld/src/Model.cpp:472-480 | the marked objects afterwards are exactly those marked before plus the walk below the object: unmarked children and, recursively, their unmarked children; a marked child is skipped with everything below it |
| Models.MarkChild | helloworld/src/Model.cpp:474-478 | one pass of the loop: an unmarked child adds itself and its walk to the marks, a marked child adds nothing |
| Models.SurvivorsExactly | helloworld/src/Model.cpp:496-502 | the compaction keeps exactly the null entries and the unmarked objects, in their order |
| Models.PathIndex | helloworld/src/Model.cpp:544-548 | the position of the first loaded texture with the path, or -1 exactly when there is none |
| Models.Model.constructor | helloworld/src/Model.cpp:123-130 | a new model's only listed object is a fresh root named "EmptyObject" with a single transform component |
| Models.Model.SetPath | helloworld/src/Model.cpp:32-37 | the model's full path, extension, directory and file name are the split of the loaded path |
| Models.Model.DestroyGameObject | helloworld/src/Model.cpp:460-490 | null is ignored. Otherwise the marked objects afterwards are exactly those marked before plus the object and every descendant reached through objects that were not marked, so a child marked earlier shields everything below it; the object leaves its parent's children, and the object list is unchanged |
| Models.Model.CleanUpDestroyedObjects | helloworld/src/Model.cpp:492-509 | the object list keeps exactly the null entries and the unmarked objects, in their order |
| Models.Model.CreateEmptyGameObject | helloworld/src/Model.cpp:511-538 | a new object with one transform becomes the last child of the given parent (the root when none is given) and the last listed object |
| Models.Model.GetOrLoadTexture | helloworld/src/Model.cpp:540-558 | a cached path returns the first texture with that path and changes nothing. Otherwise one new texture with that path, type and a fresh name is appended; when the joined file decodes, that name holds its image in the format the channel count calls for, with its size recorded, and otherwise no image changes. The list never gains a second texture with the same path |
| Models.Model.LoadMaterialTextures | helloworld/src/Model.cpp:301-314 | every texture is looked up under the model's own path, so all of them are one texture and the loaded list grows by at most one |
| Models.Model.AssignDefaultTexture | helloworld/src/Model.cpp:560-576 | on a cache hit the cached texture is appended exactly when its name is nonzero and the cache is unchanged; on a miss a new "texture_diffuse" texture is loaded, appended to the list and to the cache |
| Models.DefaultTextureReadPath | helloworld/src/Model.cpp:561-567 | the default texture is read from its path with its own file name joined on again |
| Serializer.Find | helloworld/src/SceneSerializer.cpp:81 | the position of the first member with the key, or -1 exactly when there is none |
| Serializer.Get | helloworld/src/SceneSerializer.cpp:104-108 | a member value exists only inside an object and is smaller than it |
| Serializer.Items | helloworld/src/SceneSerializer.cpp:82 | a range-for visits the elements of an array, nothing for null, and only values no larger than the one iterated |
| Serializer.SerializeGameObject | helloworld/src/SceneSerializer.cpp:25-60 | the written node reads back with the object's name and active flag, and holds a transform exactly when the object has one |
| Serializer.SaveScene | helloworld/src/SceneSerializer.cpp:9-17 | the scene is named "MyScene" and its "gameObjects" array has one entry per child of the root |
| Serializer.SerializeAll | helloworld/src/SceneSerializer.cpp:57-60 | the children loop writes one entry per child |
| Serializer.SerializeAllEntries | helloworld/src/SceneSerializer.cpp:57-60 | entry i of the children loop is child i serialised |
| Serializer.SerializeAllEntry | helloworld/src/SceneSerializer.cpp:57-60 | the same for one index, by induction on the children written |
| Serializer.SaveSceneLists | helloworld/src/SceneSerializer.cpp:9-17 | the saved "gameObjects" member is exactly the children loop over the root |
| Serializer.DescribeAll | helloworld/src/SceneSerializer.cpp:128-132 | reading a list of nodes gives one object per node, in order |
| Serializer.DescribeSerialized | helloworld/src/SceneSerializer.cpp:25-132 | deserialising a serialised object gives back its name, active flag, transform presence and children, in order, at every depth |
| Serializer.DescribeNodeJson | helloworld/src/SceneSerializer.cpp:27-60 | reading one object's JSON gives its name, flag and transform presence, and its children read back in order |
| Serializer.SaveSceneEntries | helloworld/src/SceneSerializer.cpp:9-17 | a saved scene lists one entry per child of the root (not the root itself), each reading back as that child's tree |
| Serializer.DeserializeGameObject | helloworld/src/SceneSerializer.cpp:88-132 | a fresh object is appended exactly once to the parent's children (the extra AddChild is a no-op), and the tree built under it reads as the node: name or "GameObject", active flag, transform, children in order |
| Serializer.NewGameObject | helloworld/src/SceneSerializer.cpp:89-121 | the new object has the node's name (or "GameObject"), is attached once to the parent, takes the node's active flag, and has a transform exactly when the node records one |
| Serializer.DeserializeChildren | helloworld/src/SceneSerializer.cpp:128-132 | one fresh object is appended per item, in order, after the parent's existing children, each reading as its item |
| Serializer.DeserializeNext | helloworld/src/SceneSerializer.cpp:129-131 | one loop pass appends the next item's object to the parent and keeps every earlier built object as it was |
| Serializer.LoadScene | helloworld/src/SceneSerializer.cpp:67-86 | a file that does not open, or has no "gameObjects", changes nothing; otherwise each entry is built under the root, after its existing children, which stay |
| Input.KeyStep | helloworld/src/Input.cpp:71-84 | after a frame a key reads as held exactly when it was pressed in that frame; it reads Down exactly on a press from Idle, and Up exactly on a release of a held key |
| Input.DownNeedsTwoReleasedFrames | helloworld/src/Input.cpp:71-84 | from Idle, a press reads Down exactly when it comes first or follows two released frames; a press right after a single release reads Repeat |
| Input.MouseFrame | helloworld/src/Input.cpp:87-94 | every mouse button takes the start-of-frame step, and the array keeps its size |
| Input.MouseStep | helloworld/src/Input.cpp:89-93 | after the start-of-frame step a button is Repeat or Idle, and held buttons stay held |
| Input.MouseStepIdempotent | helloworld/src/Input.cpp:89-93 | a second start-of-frame step changes nothing |
| Input.DropActionFor | helloworld/src/Input.cpp:138-167 | the dispatch records the dropped path, whatever its extension |
| Input.DropForExtension | helloworld/src/Input.cpp:142-167 | a model is created exactly for ".fbx" and ".obj"; an image notice exactly for ".png", ".jpg", ".jpeg" and ".tga"; anything else is unknown |
| Input.LastIndexOfLower | helloworld/src/Input.cpp:138-140 | lower-casing keeps the position of the last '.' or '/' |
| Input.ExtensionOfLower | helloworld/src/Input.cpp:138-140 | the extension of a lower-cased path is the lower-cased extension |
| Input.GetFileExtensionLower | helloworld/src/Input.cpp:138-140 | the lower-cased extension does not depend on the case of the path |
| Input.DropIgnoresCase | helloworld/src/Input.cpp:138-167 | a dropped file is dispatched the same way whatever the case of its path |
| Input.ApplyEvent | helloworld/src/Input.cpp:101-174 | one event keeps the number of mouse buttons |
| Input.ApplyEventDrops | helloworld/src/Input.cpp:129-173 | one event appends its own drop action, if any, and removes none |
| Input.ApplyEvents | helloworld/src/Input.cpp:96-175 | the event loop keeps the number of mouse buttons |
| Input.ApplyEventsQuit | helloworld/src/Input.cpp:103-105 | the quit flag is set after the loop exactly when it was set before or some event was a quit |
| Input.ApplyEventsUntouched | helloworld/src/Input.cpp:113-119 | a button no event names keeps the state the start-of-frame step gave it |
| Input.ApplyEventsLastButtonEvent | helloworld/src/Input.cpp:113-119 | the last button-down or button-up event for button b leaves index b-1 at Down or Up respectively |
| Input.ApplyEventButton | helloworld/src/Input.cpp:113-119 | one event changes button k only when it is a button event for button k+1 |
| Input.ApplyEventsDrops | helloworld/src/Input.cpp:129-173 | the loop appends one action per dropped file, in queue order, and removes none |
| Input.Input.constructor | helloworld/src/Input.cpp:28-35 | every key and every mouse button starts Idle, with no quit and no drops |
| Input.Input.PreUpdate | helloworld/src/Input.cpp:63-178 | it returns true; every key takes its step from the snapshot (1 meaning pressed); the buttons take the start-of-frame step; then the frame's events apply in order |
| Input.Input.HandleEvent | helloworld/src/Input.cpp:101-174 | one pass of the event loop changes the state exactly as the event prescribes |
| ResMan.LibraryPath | helloworld/src/ResMan.cpp:98 | a library path is the library folder followed by a name with no '/' |
| ResMan.MetaLinesPrintable | helloworld/src/ResMan.cpp:144-146 | both meta lines are printable one-byte text without a line break |
| ResMan.ReadMetaUid | helloworld/src/ResMan.cpp:116-132 | the getline loop returns the identifier of the first line containing "UID: ", parsed from position 5 (0 when stoull throws), or 0 when no line has one |
| ResMan.MetaRoundTrip | helloworld/src/ResMan.cpp:140-146 | a meta file written for an identifier reads back as that identifier |
| ResMan.MetaStepIdempotent | helloworld/src/ResMan.cpp:110-152 | when the meta file holds an identifier or can be written, the identifier returned is nonzero exactly when asking again returns it once more and changes nothing; a zero identifier is replaced by a new draw each time |
| ResMan.NoDotNoMeta | helloworld/src/ResMan.cpp:91 | a path without a dot is never skipped as a meta file |
| ResMan.MetaPathOutsideLibrary | helloworld/src/ResMan.cpp:111 | the meta file of an asset outside the library lies outside the library |
| ResMan.MetaPathIsMeta | helloworld/src/ResMan.cpp:91 | every meta path contains ".meta", so the scan skips it |
| ResMan.CopiedIntoLibrary | helloworld/src/ResMan.cpp:154-161 | copying an asset to its library path removes nothing and changes only entries inside the library |
| ResMan.ImportOneKeepsAssets | helloworld/src/ResMan.cpp:89-107 | one pass of the scan draws identifiers only forward, removes nothing, and changes or adds only meta files and library entries |
| ResMan.ImportAllKeepsAssets | helloworld/src/ResMan.cpp:80-108 | the whole scan draws identifiers only forward, removes nothing, and leaves every entry that is neither a meta file nor in the library as it was |
| ResMan.LibraryPathParent | helloworld/src/ResMan.cpp:98 | the parent directory of a library path is "Assets/Library" |
| ResMan.MetaPathNotLibrary | helloworld/src/ResMan.cpp:98-111 | no meta path is a library path |
| ResMan.ImportOneStoresAsset | helloworld/src/ResMan.cpp:94-106 | importing an asset leaves its meta file and a library entry for its identifier on the disk; a library entry that did not exist holds the asset's bytes; for an asset outside the library a nonzero identifier reads back from its meta file |
| ResMan.LibraryEntriesIgnored | helloworld/src/ResMan.cpp:87-91 | with library entries skipped, scanning only library entries and meta files changes nothing |
| ResMan.LibraryEntryReimported | helloworld/src/ResMan.cpp:87-105 | as written, a library entry listed by the recursive walk gets a meta file and a second library copy |
| ResMan.UidSource.Generate | helloworld/src/ResMan.cpp:140 | each call returns the next value of the identifier stream |
| ResMan.ResourceManager.constructor | helloworld/src/ResMan.cpp:20-22 | a new manager has an empty cache |
| ResMan.ResourceManager.InternalLoad | helloworld/src/ResMan.cpp:30-58 | a cached path returns the stored object and creates or loads nothing. Otherwise a type name without "Mesh" returns null and leaves the cache alone. Any other type creates one mesh with that library path, loads it, and caches it as the only entry for the path |
| ResMan.ResourceManager.CleanUp | helloworld/src/ResMan.cpp:64-69 | the cache is empty afterwards |
| ResMan.ResourceManager.GetOrCreateMeta | helloworld/src/ResMan.cpp:110-152 | a stored nonzero identifier is returned with nothing changed; otherwise a new one is drawn, "UID: n\nTime: t\n" is written when the file opens, and the new identifier is returned either way |
| ResMan.ResourceManager.SaveToLibrary | helloworld/src/ResMan.cpp:154-161 | the asset is copied to its library path |
| ResMan.ResourceManager.ImportAssets | helloworld/src/ResMan.cpp:80-108 | every listed file except meta files and library entries gets its identifier, and a library copy only when its library entry is missing |
| FileSystem.NormalizePath | helloworld/src/FileSystem.cpp:128-132 | the result has the path's length, no '\\', and every other character in place |
| FileSystem.NormalizePathIdempotent | helloworld/src/FileSystem.cpp:128-132 | normalising twice is normalising once |
| FileSystem.FileNameOf | helloworld/src/FileSystem.cpp:134-136 | the file name is a suffix of the path and holds no '/' |
| FileSystem.ExtensionDot | helloworld/src/FileSystem.cpp:142-146 | the extension's dot is a '.' after the first character, with no '.' after it; "." and ".." have none |
| FileSystem.StemExtensionSplit | helloworld/src/FileSystem.cpp:138-146 | stem and extension split the file name; the extension is empty or a dot followed by dot-free text; a nonempty name has a nonempty stem |
| FileSystem.StemHasNoSlash | helloworld/src/FileSystem.cpp:138-140 | a stem holds no separator |
| FileSystem.KeepExtension | helloworld/src/FileSystem.cpp:107-111 | the loop keeps exactly the files whose lower-cased extension is the given one, in order |
| FileSystem.DirChain | helloworld/src/FileSystem.cpp:40 | the directories create_directories makes include the path itself |
| FileSystem.Without | helloworld/src/FileSystem.cpp:64 | remove_all leaves exactly the entries that are neither the path nor below it, unchanged |
| FileSystem.WriteIfPossibleOther | helloworld/src/ResMan.cpp:142-149 | writing one file leaves every other path as it was |
| FileSystem.FileSystem.constructor | helloworld/src/FileSystem.cpp:8-10 | the module starts on the disk it is given, which stands for the real file system |
| FileSystem.FileSystem.ReadFile | helloworld/src/ResMan.cpp:113-114 | an input stream opens exactly on an existing regular file |
| FileSystem.FileSystem.GetLastModTime | helloworld/src/FileSystem.cpp:115-126 | a missing path reads 0, an existing one its modification time |
| FileSystem.FileSystem.WriteFile | helloworld/src/ResMan.cpp:142-149 | the file is written exactly when an output stream can be opened on it; otherwise nothing changes |
| FileSystem.FileSystem.CreateDir | helloworld/src/FileSystem.cpp:37-46 | an existing path returns true with nothing changed; otherwise it succeeds exactly when no prefix in the chain is a file, then adds exactly the missing directories, and changes nothing on failure |
| FileSystem.FileSystem.Copy | helloworld/src/FileSystem.cpp:48-59 | a missing source returns false with nothing changed; a file lands on the destination, or inside it when it is a directory, overwriting; a directory is copied with everything below it; success is reported exactly when the copy can happen |
| FileSystem.FileSystem.Delete | helloworld/src/FileSystem.cpp:61-71 | it returns whether the path existed, and removes it and everything below it |
| FileSystem.FileSystem.GetAllFiles | helloworld/src/FileSystem.cpp:73-97 | the result lists every regular file below the directory (at any depth when recursive), normalised, each once; a missing directory gives nothing |
| FileSystem.FileSystem.GetFilesWithExtension | helloworld/src/FileSystem.cpp:99-113 | the result is the walk's files, in walk order, whose lower-cased extension equals the lower-cased extension asked for: a file is in it exactly when the walk lists it and its extension matches, and none appears twice |
| FileSystem.FileSystem.Awake | helloworld/src/FileSystem.cpp:15-23 | it returns true and changes no existing entry; unless "Assets" is a file, the asset and library folders exist afterwards |
| FileSystem.LibraryChain | helloworld/src/FileSystem.cpp:20 | creating "Assets/Library" makes exactly "Assets" and "Assets/Library" |
| TextureImporter.DataSizeExact | helloworld/src/TextureImporter.cpp:50 | when width * height * channels fits an int, the wrapped int product is the true product |
| TextureImporter.EncodeTexture | helloworld/src/TextureImporter.cpp:40-54 | a texture file is a 12-byte header followed by the pixel bytes |
| TextureImporter.DecodeTexture | helloworld/src/TextureImporter.cpp:66-77 | a file decodes exactly when its announced size is not negative, and then its pixel block has the announced length |
| TextureImporter.TextureRoundTrip | helloworld/src/TextureImporter.cpp:40-77 | loading a written texture file gives back exactly the width, height, channels and pixels written |
| TextureImporter.TextureFileOf | helloworld/src/TextureImporter.cpp:33 | what Import writes for a decoded image is well sized |
| TextureImporter.TextureLibraryPathParent | helloworld/src/TextureImporter.cpp:29-30 | the texture file lies directly in the destination directory |
| TextureImporter.SaveToLibrary | helloworld/src/TextureImporter.cpp:40-54 | the header and the first width * height * channels bytes are written when the file opens; otherwise nothing changes |
| TextureImporter.Import | helloworld/src/TextureImporter.cpp:16-38 | it returns true exactly when the image decoded; a failure changes nothing; a success writes the image's texture file to the destination directory |
| TextureImporter.ImportThenLoad | helloworld/src/TextureImporter.cpp:16-89 | an imported image, loaded back, is uploaded with its own size and pixels, in a format whose byte count matches the pixels |
| TextureImporter.ResourceTexture.constructor | helloworld/src/ResourceTexture.cpp:6-7 | a texture resource starts with its identifier and kind, no OpenGL name, zero size, not loaded |
| TextureImporter.ResourceTexture.LoadInMemory | helloworld/src/ResourceTexture.cpp:13-22 | a loaded resource is left alone; otherwise it becomes loaded exactly when the library file loads, with the effect of Load |
| TextureImporter.ResourceTexture.FreeMemory | helloworld/src/ResourceTexture.cpp:24-32 | an unloaded resource is left alone; a loaded one deletes its texture (if named), resets its name and is no longer loaded |
| TextureImporter.ResourceTexture.Bind | helloworld/src/ResourceTexture.cpp:34-39 | an unloaded resource is loaded first and ends in the state the importer's Load gives it (size, name, uploaded image); a loaded one keeps its name, buffers and textures; the current name is then bound to the texture unit |
| TextureImporter.Load | helloworld/src/TextureImporter.cpp:56-100 | it succeeds exactly when the library file opens and announces a size that is not negative; the resource takes the header's width and height; a missing name is generated; the decoded pixels are uploaded in the format the channel count calls for |
| Textures.JoinTexturePath | helloworld/src/Textures.cpp:32-48 | the joined path ends in the file name and holds no '\\' before it |
| Textures.JoinTexturePathFileName | helloworld/src/Textures.cpp:32-48 | a file name without '/' reads back as the last component of the joined path, whatever the directory |
| Textures.JoinTexturePathSeparated | helloworld/src/Textures.cpp:43-48 | the directory part of a joined path is empty or ends in '/' |
| Textures.Texture.constructor | helloworld/src/Textures.cpp:15-23 | id is -1 as an unsigned int, type and path are empty, size zero |
| Textures.Texture.TextureFromFile | helloworld/src/Textures.cpp:30-93 | every call generates a fresh texture name and returns it; the joined path is recorded; a decoded image is uploaded to that name in the format its channel count calls for and its size recorded; otherwise size and textures are unchanged |

## Left out

- Headers that hold only declarations or constants (`Input.h`, `Module.h`, `Component.h` and the other headers) are not part of this model. The sizes `MAX_KEYS` and `NUM_MOUSE_BUTTONS` are constructor parameters of `Input.Input`.
- Input.Input.PreUpdate: the model assumes that every mouse-button event names a button within the array (`ButtonInRange`). The source indexes the array with the event's button number unchecked (Input.cpp:114 and 118). The array's size, NUM_MOUSE_BUTTONS, is declared in Input.h, which is not part of this model. SDL can report buttons numbered above SDL_BUTTON_X2 = 5, and an event beyond the array is not modelled.
- The window-resize reaction, the GUI calls, and building a `Model` for a dropped file are not modelled: they belong to the renderer, the GUI and Assimp. A dropped file is recorded as the `DropAction` it dispatches to.
- `ProcessObjectSelection` is left out. It is a floating-point ray and box intersection test.
- The modules' own Awake/Start/Update/CleanUp behaviour is an input: each module position has an answer function, and the model records which modules were called.
- Frame timing and logging are left out. `requestExit` is a field of the model, but the code that sets it lies outside the core.
- `ResourceManager::Load` is a template that is not part of this model. The cache holds meshes only, because only the mesh branch of the factory exists in `InternalLoad`.
- `SetPath`, which the resource manager calls but `Resource.h` does not declare, is modelled as `SetLibraryPath`.
- The identifier generator is an input: a stream of 64-bit values and a count of values drawn (`ResMan.UidSource`). The Mersenne-Twister generator is not part of this model.
- Timestamp-based re-import (`NeedsReimport`) has no body in the source and is not modelled. The import scan triggers only on a missing library file.
- The file system is a map from path to entry with '/' as the only separator. Exceptions from `std::filesystem`, permissions, links, and the order of directory walks are not modelled. `GetAllFiles` promises its set of files, not an order.
- `GetFileName` and `GetFileNameNoExtension` are modelled as the functions `FileNameOf` and `StemOf`, which every caller uses.
- Stream reads past the end of a file read zero bytes in the model. In the source the bytes are left unwritten: zero for a freshly sized vector, unspecified for a plain array.
- TextureImporter.Load: when the announced size is negative, the C++ pixel vector cannot be allocated and throws. The model returns false instead.
- TextureImporter.SaveToLibrary: its caller must supply at least width * height * channels bytes. A shorter buffer is read past its end in the source, which has no defined result to model.
- Image decoding (stb_image) and scene decoding (Assimp) are inputs: decoded images and meshes are parameters.
- OpenGL calls other than name generation, deletion, buffer and texture upload, draw and bind are left out: shaders, vertex attribute layout, mipmaps and texture parameters. Names are fresh nonzero integers.
- Float values are 32-bit IEEE patterns of which only the order is modelled. Face-normal arithmetic is a parameter (`FloatOps`). The normalising loop of `CalculateNormals` works on copies and changes nothing, so it is not modelled.
- Destructors are not modelled. Objects are never freed in Dafny, so the `FreeMemory` calls in the destructors of `ResourceMesh`, `ResourceTexture` and `RenderMeshComponent` have no counterpart.
- JSON is an abstract tree. Reading and writing its text, parser errors, the transform's numeric values and duplicate keys are not modelled.
- Copies of a `Texture` that `Model.cpp` returns by value are shared references in the model.
- Meshes.Mesh.Load: it refuses a file whose indices do not form whole triangles over its vertices, which the source does not check (see Findings).
- TextureImporter.Load and Textures.Texture.TextureFromFile: a two-channel image is uploaded as a two-component texture, where the source chooses RGB (see Findings).
- ModelImporter.Load: it reads the vertex block the file announces, where the source's 32-bit allocation size wraps for 2^29 vertices or more (see Findings).
- ResMan.ResourceManager.ImportAssets: it skips entries of the library folder, which the source imports again (see Findings).
- Serializer.DeserializeGameObject, Serializer.NewGameObject, Serializer.DeserializeChildren, Serializer.DeserializeNext and Serializer.LoadScene: the JSON library throws when a node is not an object, its "name" is not a string, its "active" is not a boolean, or its transform lacks a position, rotation or scale; the source's load then stops midway with the objects built so far attached. The model reads such a node with the defaults (`NameOf`, `ActiveOf`, `HasTransform`) and carries on.
- Models.Model.DestroyGameObject and Models.MarkChildren: they are stated for child links that a shape ranks, that is without cycles. The source's walk skips children already marked and so stops on a cyclic graph too (see Findings for how a cycle arises); the model does not cover that case.
- SceneGraph.GameObject.SetActive, Serializer.SerializeGameObject, Serializer.SerializeAll and Serializer.SaveScene: they are stated for ranked child links. On a cycle the source recurses without end (see Findings).
- Meshes.Mesh.constructor: it requires indices that form whole triangles over the vertices. The importer flattens every face, and a point or line face that triangulation leaves behind would make `CalculateNormals` read past the end in the source (Mesh.cpp:220-223); that case is not modelled.
- Textures.Texture.TextureFromFile: its `glBindTexture` goes to whichever texture unit is active; the call log records only the binds and draws of the render path, so this bind is not recorded.
- Models.Model.AssignDefaultTexture: as in the source, the file read for the default texture is the default path joined with its own last component (`DefaultTextureReadPath`), so unless such a file exists the appended texture has a name but no image.
- Application.Application.CleanUp: it runs the modules in list order, as the code does, although the comment at Application.cpp:37-38 announces the reverse order for clean-up.

## Findings

| source | as written | input that shows it | evidently intended | confidence | as-written member | corrected member |
|---|---|---|---|---|---|---|
| helloworld/src/TextureImporter.cpp:84-87 | a channel count of 2 falls through to RGB, so the upload reads three bytes per pixel from a buffer of two (the same switch is at Textures.cpp:60-64) | any two-channel image, e.g. a 1x1 grey-alpha PNG | one format per channel count the decoder produces: RED, RG, RGB, RGBA | not executed | TextureImporter.TwoChannelsReadPastBuffer | Gl.CorrectedChannelFormatMatches |
| helloworld/src/Mesh.cpp:264-279 | indices read from the file reach CalculateNormals without a check against the vertex count | a ".vroom" file with 0 vertices and the indices [0, 0, 0] | a file whose indices do not form whole triangles over its vertices is refused | not executed | Meshes.UncheckedIndicesReachNormals | Meshes.Mesh.Load |
| helloworld/src/ModelImporter.cpp:120-123 | the float buffer is sized `numVerts * 8` in 32-bit arithmetic, which wraps, while the read that follows uses the unwrapped count | a file announcing 2^29 vertices: the allocation is empty and the read asks for 2^32 floats | the buffer holds 8 floats per announced vertex | not executed | ModelImporter.AllocationWrapsToEmpty | ModelImporter.Load |
| helloworld/src/ResMan.cpp:87-91 | the scan skips only paths containing ".meta", so files inside Assets/Library are imported again | a disk holding "Assets/Library/7" and an identifier stream that yields 8: the scan writes "Assets/Library/7.meta" and a second copy "Assets/Library/8" | library entries are outputs of the scan and are skipped | not executed | ResMan.LibraryEntryReimported | ResMan.LibraryEntriesIgnored |
| helloworld/src/Gameobject.cpp:105-114 | AddChild checks only for null and for a child already listed, so an object can become its own child or its ancestor's child; SetActive (Gameobject.cpp:77-82) and SerializeGameObject (SceneSerializer.cpp:57-60) then recurse without end | `a->AddChild(a)` on a fresh object | an object and its ancestors are refused as children, so the children links stay acyclic | not executed | SceneGraph.SelfChildCycle | SceneGraph.GameObject.AddChildAcyclic |
