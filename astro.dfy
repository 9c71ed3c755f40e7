/**
 * The photo wall's data: pictures, the image items staged by the upload
 * dialog, and the `"<id>::<n>"` keys under which staged files wait for the
 * next publish (`src/app/projects/astro/page.tsx`, `push-pictures.ts`).
 */
module Astro {
  import opened Wrappers
  import Js
  import JsMap

  /** A photo-wall entry. `image` is the legacy single-image field; `images` the current list. */
  datatype Picture = Picture(
    id: string,
    uploadedAt: string,
    description: Option<string>,
    image: Option<string>,
    images: Option<seq<string>>)

  /** A file chosen in the upload dialog; its bytes are opaque here. */
  datatype FileData = FileData(name: string, bytes: seq<int>)

  /** An item of the upload dialog: a remote URL, or a local file with its preview URL and, possibly, a precomputed hash (`""` when absent). */
  datatype ImageItem =
    | UrlItem(url: string)
    | FileItem(file: FileData, previewUrl: string, hash: string)

  /** The page's `Map<string, ImageItem>` of staged items, keyed `"<id>::<n>"`. */
  type SlotMap = JsMap.Entries<string, ImageItem>

  /** JavaScript truthiness of an optional string. */
  predicate Truthy(o: Option<string>)
  {
    o.Some? && o.value != ""
  }

  /** The images a picture shows: its non-empty `images`, else its truthy legacy `image`, else none. */
  function CurrentImages(p: Picture): seq<string>
  {
    if p.images.Some? && |p.images.value| > 0 then p.images.value
    else if Truthy(p.image) then [p.image.value]
    else []
  }

  /** The URL an upload shows for an item before publishing. */
  function DisplayUrl(item: ImageItem): string
  {
    match item
    case UrlItem(url) => url
    case FileItem(_, preview, _) => preview
  }

  const Separator: string := "::"

  /** `"${id}::"`: every staged slot of picture `id` starts with it. */
  function SlotPrefix(id: string): string
  {
    id + Separator
  }

  /** `"${id}::${n}"`. */
  function SlotKey(id: string, n: nat): string
  {
    SlotPrefix(id) + Js.NatToString(n)
  }

  /** `const [groupId, indexStr] = key.split('::')`: `None` when there is no second part. */
  function SlotParts(key: string): (parts: (string, Option<string>))
    ensures parts.1.Some? <==> |Js.Split(key, Separator)| > 1
  {
    var split := Js.Split(key, Separator);
    (split[0], if |split| > 1 then Some(split[1]) else None)
  }

  /** `Number(indexStr)` for a slot key; `None` is NaN. */
  function SlotNumber(key: string): Option<int>
  {
    match SlotParts(key).1
    case None => None
    case Some(text) => Js.ToNumber(text)
  }

  /** Ids in the model never contain a colon, as the `Date.now()`-and-hex ids of the page do not. */
  predicate PlainId(id: string)
  {
    ':' !in id
  }

  lemma DigitsHaveNoColon(s: string)
    requires Js.AllDigits(s)
    ensures ':' !in s
  {
  }

  /** A slot key reads back as its id and index. */
  lemma SlotKeyParts(id: string, n: nat)
    requires PlainId(id)
    ensures SlotParts(SlotKey(id, n)) == (id, Some(Js.NatToString(n)))
    ensures SlotNumber(SlotKey(id, n)) == Some(n)
  {
    DigitsHaveNoColon(Js.NatToString(n));
    Js.SplitPair(id, Js.NatToString(n), Separator);
    Js.ToNumberOfNat(n);
  }

  lemma SlotKeyStartsWithPrefix(id: string, n: nat)
    ensures Js.StartsWith(SlotKey(id, n), SlotPrefix(id))
  {
    assert SlotKey(id, n)[..|SlotPrefix(id)|] == SlotPrefix(id);
  }

  /** Distinct indices give distinct keys, and keys of one index differ across ids. */
  lemma SlotKeyInjective(id: string, m: nat, id': string, n: nat)
    requires PlainId(id) && PlainId(id')
    requires SlotKey(id, m) == SlotKey(id', n)
    ensures id == id' && m == n
  {
    SlotKeyParts(id, m);
    SlotKeyParts(id', n);
    Js.NatToStringInjective(m, n);
  }
}
