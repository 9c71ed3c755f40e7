/**
 * The write page's publish hook: the guards in front of `pushBlog` and
 * `deleteBlog`, the shared `loading` flag of the write store around them, and
 * the slug a delete targets.
 */
module Publish {
  import opened Wrappers
  import Auth
  import opened Feedback

  /** Whether the editor creates a post or edits an existing one. */
  datatype Mode = Create | Edit

  /** The success toasts: "更新成功" after an edit, "发布成功" after a new post. */
  const UpdatedMessage: string := "更新成功"
  const PublishedMessage: string := "发布成功"
  /** The success toast of a delete. */
  const DeletedMessage: string := "删除成功"

  /** What the user is told after a publish or a delete. */
  datatype Outcome = Failed | Succeeded(message: string)

  /** Why a delete was refused before any request: no slug to target, or no key. */
  datatype Refusal = MissingSlug | NoKey

  /** The success message of a publish depends on the mode and on nothing else. */
  function SuccessMessage(mode: Mode): (m: string)
    ensures m == UpdatedMessage <==> mode.Edit?
    ensures m == PublishedMessage <==> mode.Create?
  {
    assert UpdatedMessage[0] != PublishedMessage[0];
    match mode
    case Edit => UpdatedMessage
    case Create => PublishedMessage
  }

  /**
   * `originalSlug || form.slug`: the slug the post was loaded under, when
   * there is a non-empty one, else the slug in the form; `None` when both are
   * missing or empty.
   */
  function TargetSlug(originalSlug: Option<string>, formSlug: string): (r: Option<string>)
    ensures r.Some? ==> r.value != ""
    ensures r.None? <==> (originalSlug.None? || originalSlug.value == "") && formSlug == ""
    ensures originalSlug.Some? && originalSlug.value != "" ==> r == originalSlug
    ensures (originalSlug.None? || originalSlug.value == "") && formSlug != "" ==> r == Some(formSlug)
  {
    if originalSlug.Some? && originalSlug.value != "" then originalSlug
    else if formSlug != "" then Some(formSlug)
    else None
  }

  /** The arguments of `pushBlog({ form, cover, images, mode, originalSlug, privateKey })`; cover and images are left out. */
  datatype PushRequest = PushRequest(formSlug: string, mode: Mode, originalSlug: Option<string>, key: string)

  /** The arguments of `deleteBlog(targetSlug, rawPem)`. */
  datatype DeleteRequest = DeleteRequest(slug: string, key: string)

  /** The write store's fields the hook reads and the `loading` flag it sets. */
  class WriteStore {
    var loading: bool
    var formSlug: string
    var mode: Mode
    var originalSlug: Option<string>

    constructor (formSlug: string, mode: Mode, originalSlug: Option<string>)
      ensures !loading && this.formSlug == formSlug && this.mode == mode && this.originalSlug == originalSlug
    {
      loading := false;
      this.formSlug := formSlug;
      this.mode := mode;
      this.originalSlug := originalSlug;
    }
  }

  /** The hook's `isAuth`: a key is in memory. */
  function IsAuth(config: Auth.ConfigStore): (b: bool)
    reads config
    ensures b <==> Auth.HasAuth(config)
  {
    config.rawPem != ""
  }

  /**
   * `onPublish`. Without a key it fails before anything else: no request and
   * no write to `loading`. Otherwise `loading` is written true, the request
   * goes out with `succeeds` as its outcome, and `loading` is written false
   * whatever that outcome; `loadingWrites` lists the values written in order.
   */
  method OnPublish(store: WriteStore, config: Auth.ConfigStore, succeeds: bool)
    returns (request: Option<PushRequest>, loadingWrites: seq<bool>, outcome: Outcome)
    modifies store
    ensures request.Some? <==> IsAuth(config)
    ensures !IsAuth(config) ==> loadingWrites == [] && outcome == Failed && store.loading == old(store.loading)
    ensures request.Some? ==>
      request.value == PushRequest(store.formSlug, store.mode, store.originalSlug, config.rawPem) &&
      loadingWrites == [true, false] && !store.loading
    ensures request.Some? && succeeds ==> outcome == Succeeded(SuccessMessage(store.mode))
    ensures request.Some? && !succeeds ==> outcome == Failed
    ensures store.formSlug == old(store.formSlug) && store.mode == old(store.mode) && store.originalSlug == old(store.originalSlug)
  {
    request := None;
    loadingWrites := [];
    outcome := Failed;
    if config.rawPem != "" {
      store.loading := true;
      loadingWrites := loadingWrites + [true];
      request := Some(PushRequest(store.formSlug, store.mode, store.originalSlug, config.rawPem));
      if succeeds {
        outcome := Succeeded(SuccessMessage(store.mode));
      }
      store.loading := false;
      loadingWrites := loadingWrites + [false];
    }
  }

  /**
   * `onDelete`. The slug is checked first, then the key: a missing slug is
   * the refusal reported whether or not a key is present. Either refusal
   * reports an error with no request and no write to `loading`. Otherwise the
   * delete goes out for `TargetSlug`, bracketed by `loading` as in
   * `OnPublish`.
   */
  method OnDelete(store: WriteStore, config: Auth.ConfigStore, succeeds: bool)
    returns (request: Option<DeleteRequest>, refusal: Option<Refusal>, loadingWrites: seq<bool>, outcome: Outcome)
    modifies store
    ensures request.Some? <==> TargetSlug(store.originalSlug, store.formSlug).Some? && IsAuth(config)
    ensures request.Some? <==> refusal.None?
    ensures TargetSlug(store.originalSlug, store.formSlug).None? ==> refusal == Some(MissingSlug)
    ensures TargetSlug(store.originalSlug, store.formSlug).Some? && !IsAuth(config) ==> refusal == Some(NoKey)
    ensures request.None? ==> loadingWrites == [] && outcome == Failed && store.loading == old(store.loading)
    ensures request.Some? ==>
      request.value == DeleteRequest(TargetSlug(store.originalSlug, store.formSlug).value, config.rawPem) &&
      loadingWrites == [true, false] && !store.loading
    ensures request.Some? ==> outcome == (if succeeds then Succeeded(DeletedMessage) else Failed)
    ensures store.formSlug == old(store.formSlug) && store.mode == old(store.mode) && store.originalSlug == old(store.originalSlug)
  {
    request := None;
    refusal := None;
    loadingWrites := [];
    outcome := Failed;
    var target := TargetSlug(store.originalSlug, store.formSlug);
    if target.None? {
      refusal := Some(MissingSlug);
    } else if config.rawPem == "" {
      refusal := Some(NoKey);
    } else {
      store.loading := true;
      loadingWrites := loadingWrites + [true];
      request := Some(DeleteRequest(target.value, config.rawPem));
      if succeeds {
        outcome := Succeeded(DeletedMessage);
      }
      store.loading := false;
      loadingWrites := loadingWrites + [false];
    }
  }
}
