/**
 * One card of the projects page: the project it shows, the local copy its
 * inline editor changes, the tags input, the image dialog, and how its link
 * opens.
 */
module ProjectCard {
  import opened Wrappers
  import Js

  datatype Project = Project(
    name: string,
    year: int,
    description: string,
    image: string,
    url: string,
    tags: seq<string>,
    github: Option<string>,
    npm: Option<string>)

  function UrlOf(p: Project): string {
    p.url
  }

  /** What the image dialog submits: a link, or an uploaded file shown by its preview url. */
  datatype ImageItem = UrlImage(url: string) | FileImage(previewUrl: string)

  /** `image.type === 'url' ? image.url : image.previewUrl`. */
  function ImageUrl(image: ImageItem): string {
    match image
    case UrlImage(url) => url
    case FileImage(previewUrl) => previewUrl
  }

  // ---------------------------------------------------------------------------
  // Field edits
  // ---------------------------------------------------------------------------

  /** A field of `Project`, as `handleFieldChange` names it. */
  datatype Field = NameField | YearField | DescriptionField | ImageField | UrlField | TagsField | GithubField | NpmField

  /** A `handleFieldChange(field, value)` call: the field and its new value. */
  datatype FieldEdit =
    | SetName(name: string)
    | SetYear(year: int)
    | SetDescription(description: string)
    | SetImage(image: string)
    | SetUrl(url: string)
    | SetTags(tags: seq<string>)
    | SetGithub(github: Option<string>)
    | SetNpm(npm: Option<string>)

  function FieldOf(e: FieldEdit): Field {
    match e
    case SetName(_) => NameField
    case SetYear(_) => YearField
    case SetDescription(_) => DescriptionField
    case SetImage(_) => ImageField
    case SetUrl(_) => UrlField
    case SetTags(_) => TagsField
    case SetGithub(_) => GithubField
    case SetNpm(_) => NpmField
  }

  /** `p` and `q` hold the same value in field `f`. */
  predicate Agree(p: Project, q: Project, f: Field) {
    match f
    case NameField => p.name == q.name
    case YearField => p.year == q.year
    case DescriptionField => p.description == q.description
    case ImageField => p.image == q.image
    case UrlField => p.url == q.url
    case TagsField => p.tags == q.tags
    case GithubField => p.github == q.github
    case NpmField => p.npm == q.npm
  }

  /** The edit that would set field `f` to the value it has in `p`. */
  function Current(p: Project, f: Field): (e: FieldEdit)
    ensures FieldOf(e) == f
  {
    match f
    case NameField => SetName(p.name)
    case YearField => SetYear(p.year)
    case DescriptionField => SetDescription(p.description)
    case ImageField => SetImage(p.image)
    case UrlField => SetUrl(p.url)
    case TagsField => SetTags(p.tags)
    case GithubField => SetGithub(p.github)
    case NpmField => SetNpm(p.npm)
  }

  /** `{ ...p, [field]: value }`: the edited field takes the value, every other field is kept. */
  function Apply(p: Project, e: FieldEdit): (q: Project)
    ensures forall f: Field | f != FieldOf(e) :: Agree(p, q, f)
    ensures Current(q, FieldOf(e)) == e
  {
    match e
    case SetName(v) => p.(name := v)
    case SetYear(v) => p.(year := v)
    case SetDescription(v) => p.(description := v)
    case SetImage(v) => p.(image := v)
    case SetUrl(v) => p.(url := v)
    case SetTags(v) => p.(tags := v)
    case SetGithub(v) => p.(github := v)
    case SetNpm(v) => p.(npm := v)
  }

  /** Two projects that agree on every field are the same project. */
  lemma AgreeEverywhere(p: Project, q: Project)
    requires forall f: Field :: Agree(p, q, f)
    ensures p == q
  {
    assert Agree(p, q, NameField) && Agree(p, q, YearField) && Agree(p, q, DescriptionField);
    assert Agree(p, q, ImageField) && Agree(p, q, UrlField) && Agree(p, q, TagsField);
    assert Agree(p, q, GithubField) && Agree(p, q, NpmField);
  }

  /** Setting a field back to its previous value undoes an edit. */
  lemma EditUndone(p: Project, e: FieldEdit)
    ensures Apply(Apply(p, e), Current(p, FieldOf(e))) == p
  {
    var q := Apply(Apply(p, e), Current(p, FieldOf(e)));
    forall f: Field ensures Agree(p, q, f) {
      if f == FieldOf(e) {
        assert Current(q, f) == Current(p, f);
      }
    }
    AgreeEverywhere(p, q);
  }

  // ---------------------------------------------------------------------------
  // Inputs
  // ---------------------------------------------------------------------------

  /** `tagsStr.split(',').map(t => t.trim()).filter(t => t)`. */
  function ParseTags(text: string): (tags: seq<string>)
    ensures forall t | t in tags :: t != "" && Js.Trim(t) == t
  {
    Js.TrimNonEmpty(Js.Split(text, ","))
  }

  /** What the tags input shows: `tags.join(', ')`. */
  function ShowTags(tags: seq<string>): string {
    Js.Join(tags, ", ")
  }

  /**
   * Re-reading the tags input gives back the tags it shows, as long as each
   * tag is trimmed, non-empty and free of commas.
   */
  lemma TagsRoundTrip(tags: seq<string>)
    requires forall i | 0 <= i < |tags| :: tags[i] != "" && Js.Trimmed(tags[i]) && ',' !in tags[i]
    ensures ParseTags(ShowTags(tags)) == tags
  {
    if tags == [] {
      Js.SplitWithout("", ",");
      assert Js.Trim("") == "";
    } else {
      var parts := TagParts(tags);
      ShownParts(tags);
      PartsTrimmed(tags);
      Js.TrimNonEmptyPointwise(parts, tags);
      calc {
        ParseTags(ShowTags(tags));
        Js.TrimNonEmpty(Js.Split(ShowTags(tags), ","));
        Js.TrimNonEmpty(parts);
        tags;
      }
    }
  }

  /** The pieces `split(',')` cuts the shown tags into: the first tag, then each other one after a space. */
  function TagParts(tags: seq<string>): (parts: seq<string>)
    requires tags != []
    ensures |parts| == |tags|
  {
    [tags[0]] + seq(|tags| - 1, i requires 0 <= i < |tags| - 1 => " " + tags[i + 1])
  }

  lemma ShownParts(tags: seq<string>)
    requires tags != [] && forall i | 0 <= i < |tags| :: ',' !in tags[i]
    ensures Js.Split(ShowTags(tags), ",") == TagParts(tags)
  {
    Js.SplitJoin(tags, ',', " ", "");
    assert [','] + " " == ", " && [','] == ",";
    assert "" + ShowTags(tags) == ShowTags(tags);
    assert "" + tags[0] == tags[0];
  }

  lemma PartsTrimmed(tags: seq<string>)
    requires tags != [] && forall i | 0 <= i < |tags| :: tags[i] != "" && Js.Trimmed(tags[i])
    ensures forall i | 0 <= i < |tags| :: Js.Trim(TagParts(tags)[i]) == tags[i]
  {
    var parts := TagParts(tags);
    forall i | 0 <= i < |tags| ensures Js.Trim(parts[i]) == tags[i] {
      if i == 0 {
        Js.TrimmedFixpoint(tags[0]);
      } else {
        assert parts[i] == " " + tags[i];
        Js.TrimLeadingSpaces(" ", tags[i]);
      }
    }
  }

  /** `parseInt(value) || 0`: the year input, with NaN read as 0. */
  function YearInput(text: string): (year: int)
    ensures Js.ParseInt(text).None? ==> year == 0
    ensures Js.ParseInt(text).Some? ==> year == Js.ParseInt(text).value
  {
    match Js.ParseInt(text)
    case Some(v) => v
    case None => 0
  }

  /** The year input reads back the year it shows. */
  lemma YearRoundTrip(year: nat)
    ensures YearInput(Js.NatToString(year)) == year
  {
    var s := Js.NatToString(year);
    assert Js.IsDigit(s[0]) && !Js.IsSpace(s[0]);
    assert Js.TrimStart(s) == s;
    assert Js.DigitPrefix(s) == s;
    Js.NatToStringValue(year);
  }

  /** `e.target.value || undefined`: an empty GitHub or NPM input is stored as absent. */
  function OptionalInput(text: string): (link: Option<string>)
    ensures link != Some("")
    ensures link.None? <==> text == ""
  {
    if text == "" then None else Some(text)
  }

  /** What the optional input shows: `value || ''`. */
  function ShowOptional(link: Option<string>): string {
    match link
    case Some(v) => v
    case None => ""
  }

  /** Re-reading an optional input gives back its link, unless the link is an empty string. */
  lemma OptionalRoundTrip(link: Option<string>)
    requires link != Some("")
    ensures OptionalInput(ShowOptional(link)) == link
  {
  }

  // ---------------------------------------------------------------------------
  // Links
  // ---------------------------------------------------------------------------

  /** A site-internal path: the url starts with `/`. */
  predicate IsInternal(url: string) {
    Js.StartsWith(url, "/")
  }

  /** The rendered link: its `target` and its text. */
  datatype LinkView = LinkView(target: string, text: string)

  /** An internal path opens in the same tab as "Open App"; anything else in a new tab as "Website". */
  function LinkViewOf(url: string): (view: LinkView)
    ensures view.target == "_self" <==> IsInternal(url)
    ensures view.text == (if IsInternal(url) then "Open App" else "Website")
    ensures view.target == "_self" || view.target == "_blank"
  {
    if IsInternal(url) then LinkView("_self", "Open App") else LinkView("_blank", "Website")
  }

  /**
   * `handleNavigation`: the path the router is pushed to, after the default
   * is prevented; `None` leaves the click to the link.
   */
  function Navigation(url: string): (push: Option<string>)
    ensures push.Some? <==> IsInternal(url)
    ensures push.Some? <==> LinkViewOf(url).target == "_self"
    ensures push.None? <==> LinkViewOf(url).target == "_blank"
    ensures push.Some? ==> push.value == url
  {
    if Js.StartsWith(url, "/") then Some(url) else None
  }

  // ---------------------------------------------------------------------------
  // The card
  // ---------------------------------------------------------------------------

  /** `canEdit`: the page is in edit mode and this card is being edited. */
  predicate CanEdit(isEditMode: bool, isEditing: bool) {
    isEditMode && isEditing
  }

  /** An `onUpdate(updated, oldProject, imageItem)` call to the page. */
  datatype Update = Update(updated: Project, original: Project, imageItem: Option<ImageItem>)

  class ProjectCardState {
    /** The `project` prop. */
    var project: Project
    var isEditing: bool
    var localProject: Project
    var showImageDialog: bool
    var imageItem: Option<ImageItem>

    constructor (prop: Project)
      ensures project == prop && localProject == prop
      ensures !isEditing && !showImageDialog && imageItem == None
    {
      project := prop;
      isEditing := false;
      localProject := prop;
      showImageDialog := false;
      imageItem := None;
    }

    /** `handleFieldChange`: only the edited field changes, and the page hears of it. */
    method HandleFieldChange(e: FieldEdit) returns (update: Update)
      modifies this
      ensures localProject == Apply(old(localProject), e)
      ensures update == Update(localProject, project, imageItem)
      ensures project == old(project) && isEditing == old(isEditing)
      ensures showImageDialog == old(showImageDialog) && imageItem == old(imageItem)
    {
      localProject := Apply(localProject, e);
      update := Update(localProject, project, imageItem);
    }

    /** `handleTagsChange`: the parsed tags replace the tags. */
    method HandleTagsChange(text: string) returns (update: Update)
      modifies this
      ensures localProject == Apply(old(localProject), SetTags(ParseTags(text)))
      ensures localProject.tags == ParseTags(text)
      ensures update == Update(localProject, project, imageItem)
      ensures project == old(project) && isEditing == old(isEditing)
      ensures showImageDialog == old(showImageDialog) && imageItem == old(imageItem)
    {
      update := HandleFieldChange(SetTags(ParseTags(text)));
    }

    /** `handleImageSubmit`: the image becomes the item's url and the item is kept for upload. */
    method HandleImageSubmit(image: ImageItem) returns (update: Update)
      modifies this
      ensures imageItem == Some(image)
      ensures localProject == Apply(old(localProject), SetImage(ImageUrl(image)))
      ensures update == Update(localProject, project, Some(image))
      ensures project == old(project) && isEditing == old(isEditing) && showImageDialog == old(showImageDialog)
    {
      imageItem := Some(image);
      localProject := localProject.(image := ImageUrl(image));
      update := Update(localProject, project, Some(image));
    }

    /**
     * `handleCancel`: back to the current prop, no pending image, not editing.
     * The prop is whatever the page last rendered the card with, so edits the
     * page has already stored are not undone.
     */
    method HandleCancel()
      modifies this
      ensures localProject == project && !isEditing && imageItem == None
      ensures project == old(project) && showImageDialog == old(showImageDialog)
    {
      localProject := project;
      isEditing := false;
      imageItem := None;
    }

    /**
     * A re-render of the card with the prop `p`. The page keys each card by
     * its project's url: under the same url React keeps the card and its
     * state and only the prop changes; under another url the card is
     * mounted afresh, as the constructor builds it.
     */
    method ReceiveProp(p: Project)
      modifies this
      ensures project == p
      ensures UrlOf(p) == UrlOf(old(project)) ==>
        localProject == old(localProject) && isEditing == old(isEditing) &&
        showImageDialog == old(showImageDialog) && imageItem == old(imageItem)
      ensures UrlOf(p) != UrlOf(old(project)) ==>
        localProject == p && !isEditing && !showImageDialog && imageItem == None
    {
      if UrlOf(p) != UrlOf(project) {
        localProject := p;
        isEditing := false;
        showImageDialog := false;
        imageItem := None;
      }
      project := p;
    }

    /**
     * Cancel is no undo for reported edits: once a field change has reached
     * the page (which stores it under the same url) and the card is rendered
     * with the stored project, cancel keeps the edit.
     */
    method CancelAfterReportedEdit(e: FieldEdit) returns (update: Update)
      requires FieldOf(e) != UrlField && UrlOf(localProject) == UrlOf(project)
      modifies this
      ensures update.updated == Apply(old(localProject), e) && update.original == old(project)
      ensures project == update.updated && localProject == update.updated
      ensures !isEditing && imageItem == None && showImageDialog == old(showImageDialog)
    {
      update := HandleFieldChange(e);
      ReceiveProp(update.updated);
      HandleCancel();
    }

    /** The edit and done buttons: `setIsEditing(editing)`. */
    method SetEditing(editing: bool)
      modifies this
      ensures isEditing == editing
      ensures project == old(project) && localProject == old(localProject)
      ensures showImageDialog == old(showImageDialog) && imageItem == old(imageItem)
    {
      isEditing := editing;
    }

    /** A click on the image: `canEdit && setShowImageDialog(true)`. */
    method HandleImageClick(isEditMode: bool)
      modifies this
      ensures showImageDialog == (old(showImageDialog) || CanEdit(isEditMode, isEditing))
      ensures project == old(project) && localProject == old(localProject)
      ensures isEditing == old(isEditing) && imageItem == old(imageItem)
    {
      if CanEdit(isEditMode, isEditing) {
        showImageDialog := true;
      }
    }
  }
}
