/**
 * How `process_image_with_ai` reshapes the first message of the completion:
 * the text becomes `text_response` (an empty text counts as none), and each
 * entry of the message's `images` is turned into one image string by a fixed
 * precedence, entries of no known shape being dropped.
 */
module Reply {
  import opened Wrappers
  import opened PyValue

  /** The first message of a completion: its text and its `images` field, absent or null as `None`. */
  datatype Message = Message(content: Option<string>, images: Option<seq<Value>>)

  /**
   * `content if content else None`: the text is kept when it is present and
   * non-empty; an empty text is reported as no text.
   */
  function TextResponse(content: Option<string>): (r: Option<string>)
    ensures r.Some? <==> content.Some? && content.value != ""
    ensures r.Some? ==> r.value == content.value
  {
    match content
    case Some(text) => if text != "" then Some(text) else None
    case None => None
  }

  /**
   * The image one reply entry yields: a str is kept as it is; in a dict,
   * `b64_json` comes first, then `image_url.url` (only when `image_url` holds
   * `url`), then `data`; anything else yields nothing. The test `'url' in
   * image_url` and the subscript after it raise on an `image_url` of the wrong
   * shape.
   */
  function ExtractImage(entry: Value): (r: Result<Option<Value>, Exception>)
    ensures entry.Str? ==> r == Ok(Some(entry))
    ensures !entry.Str? && !entry.Dict? ==> r == Ok(None)
    ensures entry.Dict? ==> var m := entry.fields;
      && ("b64_json" in m ==> r == Ok(Some(m["b64_json"])))
      && ("b64_json" !in m && "image_url" in m && m["image_url"].Dict? && "url" in m["image_url"].fields
          ==> r == Ok(Some(m["image_url"].fields["url"])))
      && (r.Ok? && r.value.Some? ==>
            || ("b64_json" in m && r.value.value == m["b64_json"])
            || ("image_url" in m && m["image_url"].Dict? && "url" in m["image_url"].fields
                && r.value.value == m["image_url"].fields["url"])
            || ("data" in m && r.value.value == m["data"]))
      && (r == Ok(None) ==> "b64_json" !in m && "data" !in m)
  {
    match entry
    case Str(_) => Ok(Some(entry))
    case Dict(m) =>
      if "b64_json" in m then Ok(Some(m["b64_json"]))
      else if "image_url" in m then
        (match Contains(m["image_url"], "url")
         case Err(e) => Err(e)
         case Ok(hasUrl) =>
           if hasUrl then
             (match GetItem(m["image_url"], "url")
              case Err(e) => Err(e)
              case Ok(url) => Ok(Some(url)))
           else if "data" in m then Ok(Some(m["data"]))
           else Ok(None))
      else if "data" in m then Ok(Some(m["data"]))
      else Ok(None)
    case _ => Ok(None)
  }

  /**
   * The images list built from `entries` in order: the image of each entry
   * that yields one, or the first exception an entry raises.
   */
  function Normalise(entries: seq<Value>): (r: Result<seq<Value>, Exception>)
    ensures r.Ok? ==> |r.value| <= |entries|
    ensures (exists k :: 0 <= k < |entries| && ExtractImage(entries[k]).Err?) ==> r.Err?
  {
    if |entries| == 0 then Ok([])
    else
      var init := entries[..|entries| - 1];
      assert forall k :: 0 <= k < |init| ==> init[k] == entries[k];
      match Normalise(init)
      case Err(e) => Err(e)
      case Ok(images) =>
        match ExtractImage(entries[|entries| - 1])
        case Err(e) => Err(e)
        case Ok(None) => Ok(images)
        case Ok(Some(image)) => Ok(images + [image])
  }

  /** The entries of `images`, the empty list when the field is absent, null or empty. */
  function Entries(images: Option<seq<Value>>): seq<Value>
  {
    match images
    case Some(xs) => xs
    case None => []
  }

  /**
   * The loop of `process_image_with_ai` over the message's images, appending
   * to the result list in place; it stops at the first entry that raises.
   */
  method NormaliseImages(images: Option<seq<Value>>) returns (r: Result<seq<Value>, Exception>)
    ensures r == Normalise(Entries(images))
  {
    var result: seq<Value> := [];
    if images.None? || images.value == [] {
      return Ok(result);
    }
    var entries := images.value;
    var i := 0;
    while i < |entries|
      invariant 0 <= i <= |entries|
      invariant Normalise(entries[..i]) == Ok(result)
    {
      assert entries[..i + 1][..i] == entries[..i];
      var entry := entries[i];
      match entry {
        case Str(_) =>
          result := result + [entry];
        case Dict(m) =>
          if "b64_json" in m {
            result := result + [m["b64_json"]];
          } else {
            var hasUrl: Result<bool, Exception> := Ok(false);
            if "image_url" in m {
              hasUrl := Contains(m["image_url"], "url");
              if hasUrl.Err? {
                NormaliseStopsAtRaise(entries, i + 1);
                return Err(hasUrl.error);
              }
            }
            if hasUrl.value {
              var url := GetItem(m["image_url"], "url");
              if url.Err? {
                NormaliseStopsAtRaise(entries, i + 1);
                return Err(url.error);
              }
              result := result + [url.value];
            } else if "data" in m {
              result := result + [m["data"]];
            }
          }
        case _ =>
      }
      i := i + 1;
    }
    assert entries[..i] == entries;
    return Ok(result);
  }

  /** Once a prefix of the entries raises, the whole normalisation raises the same exception. */
  lemma {:induction false} NormaliseStopsAtRaise(entries: seq<Value>, j: nat)
    requires j <= |entries| && Normalise(entries[..j]).Err?
    ensures Normalise(entries) == Normalise(entries[..j])
    decreases |entries| - j
  {
    if j < |entries| {
      assert entries[..j + 1][..j] == entries[..j];
      NormaliseStopsAtRaise(entries, j + 1);
    } else {
      assert entries[..j] == entries;
    }
  }

  /** An entry of the reply that yields an image. */
  predicate Yields(entry: Value)
  {
    ExtractImage(entry).Ok? && ExtractImage(entry).value.Some?
  }

  /** The positions, in increasing order, of the entries that yield an image. */
  function YieldingPositions(entries: seq<Value>): (ps: seq<nat>)
    ensures forall k :: 0 <= k < |ps| ==> ps[k] < |entries| && Yields(entries[ps[k]])
    ensures forall k, l :: 0 <= k < l < |ps| ==> ps[k] < ps[l]
    ensures forall i :: 0 <= i < |entries| && Yields(entries[i]) ==> i in ps
  {
    if |entries| == 0 then []
    else
      var init := entries[..|entries| - 1];
      assert forall i :: 0 <= i < |init| ==> init[i] == entries[i];
      var ps := YieldingPositions(init);
      if Yields(entries[|entries| - 1]) then ps + [|entries| - 1] else ps
  }

  /**
   * A successful normalisation keeps input order: its k-th image is the image
   * of the k-th entry that yields one, and every other entry is dropped. So
   * there are never more images than entries.
   */
  lemma {:induction false} NormaliseKeepsOrder(entries: seq<Value>)
    requires Normalise(entries).Ok?
    ensures var images, ps := Normalise(entries).value, YieldingPositions(entries);
      && |images| == |ps| <= |entries|
      && forall k :: 0 <= k < |ps| ==> images[k] == ExtractImage(entries[ps[k]]).value.value
    decreases |entries|
  {
    if |entries| > 0 {
      var init := entries[..|entries| - 1];
      NormaliseKeepsOrder(init);
      assert forall k :: 0 <= k < |init| ==> init[k] == entries[k];
    }
  }

  /** A normalisation fails exactly with the exception of the first entry that raises. */
  lemma {:induction false} NormaliseFailsAtFirstRaise(entries: seq<Value>)
    requires Normalise(entries).Err?
    ensures exists i :: (0 <= i < |entries|
      && ExtractImage(entries[i]) == Err(Normalise(entries).error)
      && Normalise(entries[..i]).Ok?)
    decreases |entries|
  {
    var n := |entries|;
    var init := entries[..n - 1];
    if Normalise(init).Err? {
      NormaliseFailsAtFirstRaise(init);
      var i :| 0 <= i < |init| && ExtractImage(init[i]) == Err(Normalise(init).error) && Normalise(init[..i]).Ok?;
      assert init[..i] == entries[..i] && init[i] == entries[i];
    } else {
      assert entries[..n - 1] == init;
    }
  }

  /** A reply whose entries are all strings gives back exactly those strings. */
  lemma {:induction false} StringsKeptAsIs(entries: seq<Value>)
    requires forall k :: 0 <= k < |entries| ==> entries[k].Str?
    ensures Normalise(entries) == Ok(entries)
    decreases |entries|
  {
    if |entries| > 0 {
      var init := entries[..|entries| - 1];
      StringsKeptAsIs(init);
      assert init + [entries[|entries| - 1]] == entries;
    }
  }

  /** `b64_json` wins over `image_url`: `{b64_json: X, image_url: {url: Y}}` yields X. */
  lemma B64JsonFirst(x: Value, y: Value)
    ensures ExtractImage(Dict(map["b64_json" := x, "image_url" := Dict(map["url" := y])])) == Ok(Some(x))
  {
  }

  /**
   * The one way an entry raises: it is a dict without `b64_json` whose
   * `image_url` is not a dict, and is either no container at all or a str or
   * list in which `'url'` is found.
   */
  lemma ExtractImageRaises(entry: Value)
    ensures ExtractImage(entry).Err? <==>
      && entry.Dict?
      && "b64_json" !in entry.fields
      && "image_url" in entry.fields
      && var u := entry.fields["image_url"];
        !u.Dict? && (Contains(u, "url").Err? || Contains(u, "url").value)
  {
  }
}
