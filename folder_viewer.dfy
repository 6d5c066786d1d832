/** The folder viewer component: the listing of one folder of a course
    (directories first, then by name), reloaded when the folder or the
    course changes, and what a click on an item emits. Fetching the course's
    files is asynchronous: `LoadFiles` returns the request and
    `FilesLoaded` receives the answer. */
module FolderViewer {
  import opened Common
  import opened Ordering
  import opened FrontendFileService

  /** The files whose parent is `folderId`, in input order; `None` is the
      root level. */
  function InFolder(files: seq<FileNode>, folderId: Option<nat>): (r: seq<FileNode>)
    ensures forall f :: multiset(r)[f] == if f.parentId == folderId then multiset(files)[f] else 0
    decreases |files|
  {
    if |files| == 0 then []
    else
      var n := |files|;
      var rest := InFolder(files[..n - 1], folderId);
      assert files == files[..n - 1] + [files[n - 1]];
      rest + (if files[n - 1].parentId == folderId then [files[n - 1]] else [])
  }

  /** The comparator: a directory before a file, otherwise by name. */
  function DirectoriesFirst(nameLe: (string, string) -> bool): (FileNode, FileNode) -> bool
  {
    (a: FileNode, b: FileNode) => (a.isDirectory && !b.isDirectory) || (a.isDirectory == b.isDirectory && nameLe(a.name, b.name))
  }

  lemma DirectoriesFirstIsPreorder(nameLe: (string, string) -> bool)
    requires TotalPreorder(nameLe)
    ensures TotalPreorder(DirectoriesFirst(nameLe))
  {
    var le := DirectoriesFirst(nameLe);
    forall a: FileNode, b: FileNode, c: FileNode | le(a, b) && le(b, c)
      ensures le(a, c)
    {
      if a.isDirectory == b.isDirectory && b.isDirectory == c.isDirectory {
        assert nameLe(a.name, b.name) && nameLe(b.name, c.name);
      }
    }
    forall a: FileNode, b: FileNode
      ensures le(a, b) || le(b, a)
    {
      assert nameLe(a.name, b.name) || nameLe(b.name, a.name);
    }
  }

  /** `loadFolderContents`: the folder's files, sorted. */
  function FolderContents(files: seq<FileNode>, folderId: Option<nat>, nameLe: (string, string) -> bool): seq<FileNode>
  {
    SortBy(InFolder(files, folderId), DirectoriesFirst(nameLe))
  }

  /** The listing holds exactly the files of the folder, none omitted and
      none repeated. */
  lemma ListingIsExact(files: seq<FileNode>, folderId: Option<nat>, nameLe: (string, string) -> bool, f: FileNode)
    ensures multiset(FolderContents(files, folderId, nameLe))[f] == if f.parentId == folderId then multiset(files)[f] else 0
    ensures f in FolderContents(files, folderId, nameLe) <==> f in files && f.parentId == folderId
  {
  }

  /** Directories come before files, and each group is ordered by name. */
  lemma {:induction false} ListingIsOrdered(files: seq<FileNode>, folderId: Option<nat>, nameLe: (string, string) -> bool)
    requires TotalPreorder(nameLe)
    ensures var c := FolderContents(files, folderId, nameLe);
      forall i, j :: 0 <= i < j < |c| ==>
        (c[j].isDirectory ==> c[i].isDirectory) &&
        (c[i].isDirectory == c[j].isDirectory ==> nameLe(c[i].name, c[j].name))
  {
    DirectoriesFirstIsPreorder(nameLe);
    SortBySorted(InFolder(files, folderId), DirectoriesFirst(nameLe));
  }

  /** `!courseId`: no course, or course id 0. */
  predicate Truthy(id: Option<nat>)
  {
    id.Some? && id.value != 0
  }

  /** What a click emits. */
  datatype ItemEvent = FolderSelected(folderId: nat, folderName: string, courseId: Option<nat>)
                     | FileSelected(file: FileNode)

  class FolderViewerComponent {
    var folderId: Option<nat>
    var courseId: Option<nat>
    var currentFolderId: Option<nat>
    var currentCourseId: Option<nat>
    var allFiles: seq<FileNode>
    var contents: seq<FileNode>
    var isLoading: bool
    const nameLe: (string, string) -> bool

    constructor (nameLe: (string, string) -> bool)
      ensures this.nameLe == nameLe
      ensures folderId == None && courseId == None && currentFolderId == None && currentCourseId == None
      ensures allFiles == [] && contents == [] && !isLoading
    {
      this.nameLe := nameLe;
      folderId := None;
      courseId := None;
      currentFolderId := None;
      currentCourseId := None;
      allFiles := [];
      contents := [];
      isLoading := false;
    }

    /** `loadFiles`: without a course nothing happens; otherwise loading
        starts and the course's files are requested. */
    method LoadFiles() returns (request: Option<nat>)
      modifies this
      ensures request.Some? <==> Truthy(courseId)
      ensures request.Some? ==> request == courseId && isLoading
      ensures request.None? ==> isLoading == old(isLoading)
      ensures folderId == old(folderId) && courseId == old(courseId)
      ensures currentFolderId == old(currentFolderId) && currentCourseId == old(currentCourseId)
      ensures allFiles == old(allFiles) && contents == old(contents)
    {
      if !Truthy(courseId) {
        return None;
      }
      isLoading := true;
      request := courseId;
    }

    /** `ngOnInit`. */
    method NgOnInit() returns (request: Option<nat>)
      modifies this
      ensures request.Some? <==> Truthy(courseId)
      ensures request.Some? ==> request == courseId && isLoading
      ensures request.None? ==> isLoading == old(isLoading)
      ensures folderId == old(folderId) && courseId == old(courseId)
      ensures currentFolderId == old(currentFolderId) && currentCourseId == old(currentCourseId)
      ensures allFiles == old(allFiles) && contents == old(contents)
    {
      request := LoadFiles();
    }

    /** `ngOnChanges` with the new inputs: the files are requested again
        only when the folder or the course differs from the last one seen;
        afterwards the last seen values are the inputs. */
    method NgOnChanges(newFolderId: Option<nat>, newCourseId: Option<nat>) returns (request: Option<nat>)
      modifies this
      ensures folderId == newFolderId && courseId == newCourseId
      ensures currentFolderId == newFolderId && currentCourseId == newCourseId
      ensures request.Some? <==>
                (newFolderId != old(currentFolderId) || newCourseId != old(currentCourseId)) && Truthy(newCourseId)
      ensures request.Some? ==> request == newCourseId && isLoading
      ensures request.None? ==> isLoading == old(isLoading)
      ensures allFiles == old(allFiles) && contents == old(contents)
    {
      folderId := newFolderId;
      courseId := newCourseId;
      request := None;
      if folderId != currentFolderId || courseId != currentCourseId {
        currentFolderId := folderId;
        currentCourseId := courseId;
        request := LoadFiles();
      }
    }

    /** `loadFolderContents`. */
    method LoadFolderContents()
      modifies this
      ensures contents == FolderContents(allFiles, folderId, nameLe)
      ensures folderId == old(folderId) && courseId == old(courseId) && allFiles == old(allFiles)
      ensures currentFolderId == old(currentFolderId) && currentCourseId == old(currentCourseId)
      ensures isLoading == old(isLoading)
    {
      contents := FolderContents(allFiles, folderId, nameLe);
    }

    /** The answer to the request: on success the files are kept and the
        listing rebuilt; either way loading ends. */
    method FilesLoaded(response: Option<seq<FileNode>>)
      modifies this
      ensures !isLoading
      ensures response.Some? ==> allFiles == response.value && contents == FolderContents(allFiles, folderId, nameLe)
      ensures response.None? ==> allFiles == old(allFiles) && contents == old(contents)
      ensures folderId == old(folderId) && courseId == old(courseId)
      ensures currentFolderId == old(currentFolderId) && currentCourseId == old(currentCourseId)
    {
      if response.Some? {
        allFiles := response.value;
        LoadFolderContents();
      }
      isLoading := false;
    }

    /** `setAllFiles`: the parent hands over the files. */
    method SetAllFiles(files: seq<FileNode>)
      modifies this
      ensures allFiles == files && contents == FolderContents(files, folderId, nameLe)
      ensures folderId == old(folderId) && courseId == old(courseId) && isLoading == old(isLoading)
      ensures currentFolderId == old(currentFolderId) && currentCourseId == old(currentCourseId)
    {
      allFiles := files;
      LoadFolderContents();
    }

    /** `onItemClick`: a directory opens as a folder of this course, a file
        is selected. */
    function OnItemClick(item: FileNode): (event: ItemEvent)
      reads this
      ensures event.FolderSelected? <==> item.isDirectory
      ensures event.FolderSelected? ==> event.folderId == item.id && event.folderName == item.name && event.courseId == courseId
      ensures event.FileSelected? ==> event.file == item
    {
      if item.isDirectory then FolderSelected(item.id, item.name, courseId) else FileSelected(item)
    }
  }

  /** Opening a folder from a listing shows that folder's own files, at the
      same course, once they arrive. */
  method OpenFolder(v: FolderViewerComponent, item: FileNode, files: seq<FileNode>)
    requires item.isDirectory && Truthy(v.courseId)
    modifies v
    ensures v.currentFolderId == Some(item.id) && v.courseId == old(v.courseId)
    ensures forall f :: f in v.contents <==> f in files && f.parentId == Some(item.id)
    ensures !v.isLoading
  {
    var event := v.OnItemClick(item);
    var request := v.NgOnChanges(Some(event.folderId), event.courseId);
    v.FilesLoaded(Some(files));
    forall f
      ensures f in v.contents <==> f in files && f.parentId == Some(item.id)
    {
      ListingIsExact(files, Some(item.id), v.nameLe, f);
    }
  }
}
