/**
 * The projects page: the list of project cards, the snapshot last
 * published, the images waiting for upload keyed by project url, and the
 * edit mode that commits or discards the changes.
 */
module ProjectsPage {
  import opened Wrappers
  import JsMap
  import UrlList
  import Auth
  import opened Feedback
  import opened ProjectCard

  /** The arguments of `pushProjects({ projects, imageItems, privateKey })`. */
  datatype PushRequest = PushRequest(projects: seq<Project>, imageItems: JsMap.Entries<string, ImageItem>, key: string)

  /** The Ctrl/Cmd + `,` shortcut outside edit mode. */
  predicate ShortcutApplies(isEditMode: bool, ctrlKey: bool, metaKey: bool, key: string) {
    !isEditMode && (ctrlKey || metaKey) && key == ","
  }

  class ProjectsPageState {
    var projects: seq<Project>
    var originalProjects: seq<Project>
    var isEditMode: bool
    var isSaving: bool
    var editingProject: Option<Project>
    var isCreateDialogOpen: bool
    /** Images chosen for projects, by project url, awaiting upload. */
    var imageItems: JsMap.Entries<string, ImageItem>
    var notice: Option<Notice>

    /** The page as it mounts with the bundled `list.json`. */
    constructor (initialList: seq<Project>)
      ensures projects == initialList && originalProjects == initialList
      ensures !isEditMode && !isSaving && editingProject == None && !isCreateDialogOpen
      ensures imageItems == [] && notice == None
      ensures Valid()
    {
      projects := initialList;
      originalProjects := initialList;
      isEditMode := false;
      isSaving := false;
      editingProject := None;
      isCreateDialogOpen := false;
      imageItems := [];
      notice := None;
    }

    /**
     * No handler ever sets a project to edit in the dialog; pending images
     * have one entry per url; outside edit mode the list is the published one
     * and nothing waits for upload.
     */
    ghost predicate Valid()
      reads this
    {
      editingProject == None && JsMap.DistinctKeys(imageItems) &&
      (!isEditMode ==> projects == originalProjects && imageItems == [])
    }

    /**
     * `handleUpdate`: every project with the old url becomes the updated one,
     * and a supplied image is recorded under the updated url.
     */
    method HandleUpdate(updated: Project, oldProject: Project, imageItem: Option<ImageItem>)
      modifies this
      ensures projects == UrlList.ReplaceUrl(old(projects), UrlOf, oldProject.url, updated)
      ensures imageItem.None? ==> imageItems == old(imageItems)
      ensures imageItem.Some? ==> imageItems == JsMap.Set(old(imageItems), updated.url, imageItem.value)
      ensures originalProjects == old(originalProjects) && isEditMode == old(isEditMode) && isSaving == old(isSaving)
      ensures editingProject == old(editingProject) && isCreateDialogOpen == old(isCreateDialogOpen) && notice == old(notice)
      ensures old(Valid()) && isEditMode ==> Valid()
    {
      projects := UrlList.ReplaceUrl(projects, UrlOf, oldProject.url, updated);
      if imageItem.Some? {
        if JsMap.DistinctKeys(imageItems) {
          JsMap.SetSpec(imageItems, updated.url, imageItem.value);
        }
        imageItems := JsMap.Set(imageItems, updated.url, imageItem.value);
      }
    }

    /** `handleAdd`: the create dialog opens for a new project. */
    method HandleAdd()
      modifies this
      ensures editingProject == None && isCreateDialogOpen
      ensures projects == old(projects) && originalProjects == old(originalProjects) && isEditMode == old(isEditMode)
      ensures isSaving == old(isSaving) && imageItems == old(imageItems) && notice == old(notice)
      ensures old(Valid()) ==> Valid()
    {
      editingProject := None;
      isCreateDialogOpen := true;
    }

    /** `handleSaveProject`: replaces the project being edited, or appends a new one. */
    method HandleSaveProject(updated: Project)
      modifies this
      ensures old(editingProject).Some? ==>
        projects == UrlList.ReplaceUrl(old(projects), UrlOf, old(editingProject).value.url, updated)
      ensures old(editingProject).None? ==> projects == old(projects) + [updated]
      ensures originalProjects == old(originalProjects) && isEditMode == old(isEditMode) && isSaving == old(isSaving)
      ensures editingProject == old(editingProject) && isCreateDialogOpen == old(isCreateDialogOpen)
      ensures imageItems == old(imageItems) && notice == old(notice)
      ensures old(Valid()) && isEditMode ==> Valid()
    {
      if editingProject.Some? {
        projects := UrlList.ReplaceUrl(projects, UrlOf, editingProject.value.url, updated);
      } else {
        projects := projects + [updated];
      }
    }

    /** `handleDelete`: once confirmed, every project with that url goes. */
    method HandleDelete(project: Project, confirmed: bool)
      modifies this
      ensures projects == if confirmed then UrlList.RemoveUrl(old(projects), UrlOf, project.url) else old(projects)
      ensures originalProjects == old(originalProjects) && isEditMode == old(isEditMode) && isSaving == old(isSaving)
      ensures editingProject == old(editingProject) && isCreateDialogOpen == old(isCreateDialogOpen)
      ensures imageItems == old(imageItems) && notice == old(notice)
      ensures old(Valid()) && (isEditMode || !confirmed) ==> Valid()
    {
      if confirmed {
        projects := UrlList.RemoveUrl(projects, UrlOf, project.url);
      }
    }

    /**
     * `handleSave`. Without a key in memory it fails and changes nothing;
     * otherwise the request goes out and `pushSucceeds` is its outcome. A
     * success publishes the list, drops the pending images and leaves edit
     * mode; a failure keeps every edit.
     */
    method HandleSave(store: Auth.ConfigStore, pushSucceeds: bool) returns (request: Option<PushRequest>)
      modifies this
      ensures request.Some? <==> store.rawPem != ""
      ensures request.Some? ==> request.value == PushRequest(old(projects), old(imageItems), store.rawPem)
      ensures store.rawPem == "" ==> notice == Some(Failure)
      ensures request.Some? && pushSucceeds ==>
        originalProjects == old(projects) && imageItems == [] && !isEditMode && notice == Some(Success)
      ensures request.Some? && !pushSucceeds ==> notice == Some(Failure)
      ensures !(request.Some? && pushSucceeds) ==>
        originalProjects == old(originalProjects) && imageItems == old(imageItems) && isEditMode == old(isEditMode)
      ensures isSaving == (old(isSaving) && request.None?)
      ensures projects == old(projects) && editingProject == old(editingProject) && isCreateDialogOpen == old(isCreateDialogOpen)
      ensures old(Valid()) ==> Valid()
    {
      request := None;
      if store.rawPem == "" {
        notice := Some(Failure);
      } else {
        isSaving := true;
        request := Some(PushRequest(projects, imageItems, store.rawPem));
        if pushSucceeds {
          originalProjects := projects;
          imageItems := [];
          isEditMode := false;
          notice := Some(Success);
        } else {
          notice := Some(Failure);
        }
        isSaving := false;
      }
    }

    /** `handleCancel`: the published list comes back and the pending images are dropped. */
    method HandleCancel()
      modifies this
      ensures projects == originalProjects && imageItems == [] && !isEditMode
      ensures originalProjects == old(originalProjects) && isSaving == old(isSaving)
      ensures editingProject == old(editingProject) && isCreateDialogOpen == old(isCreateDialogOpen) && notice == old(notice)
      ensures old(Valid()) ==> Valid()
    {
      projects := originalProjects;
      imageItems := [];
      isEditMode := false;
    }

    /** The manage button: `setIsEditMode(true)`. */
    method EnterEditMode()
      modifies this
      ensures isEditMode
      ensures projects == old(projects) && originalProjects == old(originalProjects) && isSaving == old(isSaving)
      ensures editingProject == old(editingProject) && isCreateDialogOpen == old(isCreateDialogOpen)
      ensures imageItems == old(imageItems) && notice == old(notice)
      ensures old(Valid()) ==> Valid()
    {
      isEditMode := true;
    }

    /** The shortcut enters edit mode, and takes the key press, only when a key is in memory. */
    method HandleKeyDown(ctrlKey: bool, metaKey: bool, key: string, store: Auth.ConfigStore) returns (prevented: bool)
      modifies this
      ensures prevented == (ShortcutApplies(old(isEditMode), ctrlKey, metaKey, key) && store.rawPem != "")
      ensures isEditMode == (old(isEditMode) || prevented)
      ensures projects == old(projects) && originalProjects == old(originalProjects) && isSaving == old(isSaving)
      ensures editingProject == old(editingProject) && isCreateDialogOpen == old(isCreateDialogOpen)
      ensures imageItems == old(imageItems) && notice == old(notice)
      ensures old(Valid()) ==> Valid()
    {
      prevented := false;
      if ShortcutApplies(isEditMode, ctrlKey, metaKey, key) && store.rawPem != "" {
        prevented := true;
        isEditMode := true;
      }
    }
  }
}
