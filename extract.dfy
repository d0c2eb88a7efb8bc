/**
  The per-photo extractor of populate.py: it turns a Flickr photo handle into
  the flat metadata dictionary that is later written to Redis. The two
  accessors of the handle that parse XML (`description` and `getSizes`) may
  raise `ExpatError`; the extractor absorbs that error and degrades only the
  fields that depend on the failed accessor.
*/
module Extract {
  import opened Wrappers

  /** The one error the fragile accessors raise: malformed XML from the Flickr API. */
  datatype ParseError = ExpatError

  /** One entry of `getSizes()`: a dictionary with keys such as label, source, width, height. */
  type SizeEntry = map<string, string>

  /**
    A Flickr photo handle. `description` and `sizes` are what the handle's
    XML-parsing accessors return or raise; the five size-variant URLs are
    built by the handle without parsing and always succeed.
  */
  datatype Photo = Photo(
    id: string,
    title: string,
    description: Result<string, ParseError>,
    sizes: Result<seq<SizeEntry>, ParseError>,
    smallSquare: string,
    thumbnail: string,
    small: string,
    medium: string,
    large: string)

  /** The photo dictionary: field name to value, `None` where a lookup degraded. */
  type Record = map<string, Option<string>>

  /** The keys of every photo dictionary, with the misspelt `descripton` that the source writes. */
  const RecordFields: set<string> :=
    {"photo_id", "title", "descripton", "square_url", "thumbnail_url", "small_url",
     "medium_url", "large_url", "original_url", "width", "height"}

  /** The fields filled from the Original size entry. */
  const OriginalFields: set<string> := {"original_url", "width", "height"}

  /** `image_size.get('label') == 'Original'`. */
  predicate IsOriginal(entry: SizeEntry): (b: bool)
    ensures b <==> "label" in entry && entry["label"] == "Original"
  {
    Get(entry, "label") == Some("Original")
  }

  /** Index `i` holds the first entry of `sizes` labelled Original. */
  ghost predicate FirstOriginalAt(sizes: seq<SizeEntry>, i: int) {
    && 0 <= i < |sizes|
    && IsOriginal(sizes[i])
    && forall j :: 0 <= j < i ==> !IsOriginal(sizes[j])
  }

  /** The position of the first Original entry, if any (specification of the search loop). */
  function FindOriginal(sizes: seq<SizeEntry>): (r: Option<nat>)
    ensures r.Some? ==> FirstOriginalAt(sizes, r.value)
    ensures r.None? ==> forall j :: 0 <= j < |sizes| ==> !IsOriginal(sizes[j])
  {
    if sizes == [] then None
    else if IsOriginal(sizes[0]) then Some(0)
    else match FindOriginal(sizes[1..])
      case None => None
      case Some(k) => Some(k + 1)
  }

  /** There is at most one first Original entry. */
  lemma FirstOriginalUnique(sizes: seq<SizeEntry>, i: int, k: int)
    requires FirstOriginalAt(sizes, i) && FirstOriginalAt(sizes, k)
    ensures i == k
  {
  }

  /** What `get_original_data` returns, as a function of the handle. */
  function OriginalData(image: Photo): (r: SizeEntry)
    ensures image.sizes.Failure? ==> r == map[]
    ensures image.sizes.Success? ==>
      (r == map[] <==> forall j :: 0 <= j < |image.sizes.value| ==> !IsOriginal(image.sizes.value[j]))
    ensures forall i :: image.sizes.Success? && FirstOriginalAt(image.sizes.value, i) ==>
      r == image.sizes.value[i]
  {
    match image.sizes
    case Failure(_) => map[]
    case Success(sizes) =>
      var found := FindOriginal(sizes);
      if found.Some? then
        assert IsOriginal(sizes[found.value]);
        forall i | FirstOriginalAt(sizes, i) ensures sizes[found.value] == sizes[i] {
          FirstOriginalUnique(sizes, found.value, i);
        }
        sizes[found.value]
      else
        map[]
  }

  /**
    `get_original_data`: scans the size list in order and returns the first
    entry labelled Original; returns the empty dictionary when none matches
    or when `getSizes` raises `ExpatError`.
  */
  method GetOriginalData(image: Photo) returns (r: SizeEntry)
    ensures r == OriginalData(image)
  {
    match image.sizes {
      case Failure(_) =>
      case Success(imageSizes) =>
        for i := 0 to |imageSizes|
          invariant forall j :: 0 <= j < i ==> !IsOriginal(imageSizes[j])
        {
          if Get(imageSizes[i], "label") == Some("Original") {
            assert FirstOriginalAt(imageSizes, i);
            return imageSizes[i];
          }
        }
    }
    return map[];
  }

  /** `get_description`: the description, or `None` when the accessor raises `ExpatError`. */
  function GetDescription(image: Photo): (r: Option<string>)
    ensures r.Some? <==> image.description.Success?
    ensures r.Some? ==> r.value == image.description.value
  {
    match image.description
    case Success(description) => Some(description)
    case Failure(_) => None
  }

  /**
    `get_photo_dictionary`: the record of one photo. It never fails; every
    record has exactly the same eleven keys, and the id and title come
    straight from the handle.
  */
  function GetPhotoDictionary(photo: Photo): (r: Record)
    ensures r.Keys == RecordFields
    ensures r["photo_id"] == Some(photo.id) && r["title"] == Some(photo.title)
  {
    var originalData := OriginalData(photo);
    var description := GetDescription(photo);
    map[
      "photo_id" := Some(photo.id),
      "title" := Some(photo.title),
      "descripton" := description,
      "square_url" := Some(photo.smallSquare),
      "thumbnail_url" := Some(photo.thumbnail),
      "small_url" := Some(photo.small),
      "medium_url" := Some(photo.medium),
      "large_url" := Some(photo.large),
      "original_url" := Get(originalData, "source"),
      "width" := Get(originalData, "width"),
      "height" := Get(originalData, "height")
    ]
  }

  /** The `descripton` field is the description when it parses and `None` when it raises. */
  lemma DescriptionField(photo: Photo)
    ensures photo.description.Success? ==>
      GetPhotoDictionary(photo)["descripton"] == Some(photo.description.value)
    ensures photo.description.Failure? ==> GetPhotoDictionary(photo)["descripton"] == None
  {
  }

  /**
    The original URL, width and height are the source, width and height of the
    first Original size entry; when the size lookup degraded (it raised, or no
    entry is labelled Original) all three are absent together.
  */
  lemma OriginalFieldsFromFirstOriginal(photo: Photo)
    ensures var r := GetPhotoDictionary(photo);
      forall i :: photo.sizes.Success? && FirstOriginalAt(photo.sizes.value, i) ==>
        && r["original_url"] == Get(photo.sizes.value[i], "source")
        && r["width"] == Get(photo.sizes.value[i], "width")
        && r["height"] == Get(photo.sizes.value[i], "height")
    ensures var r := GetPhotoDictionary(photo);
      (photo.sizes.Failure? ||
       forall j :: 0 <= j < |photo.sizes.value| ==> !IsOriginal(photo.sizes.value[j])) ==>
        r["original_url"] == None && r["width"] == None && r["height"] == None
  {
  }

  /**
    Whether or not the description parses, every field other than `descripton`
    stays the same: a failed description never degrades another field.
  */
  lemma DescriptionFailureIsLocal(photo: Photo, description: Result<string, ParseError>)
    ensures forall k :: k in RecordFields && k != "descripton" ==>
      GetPhotoDictionary(photo.(description := description))[k] == GetPhotoDictionary(photo)[k]
  {
  }

  /**
    Whatever the size lookup returns or raises, only the original URL, width
    and height can change; in particular the five size-variant URLs come from
    their own accessors.
  */
  lemma SizeLookupIsLocal(photo: Photo, sizes: Result<seq<SizeEntry>, ParseError>)
    ensures forall k :: k in RecordFields && k !in OriginalFields ==>
      GetPhotoDictionary(photo.(sizes := sizes))[k] == GetPhotoDictionary(photo)[k]
  {
  }

  /** The size-variant URLs are always present and equal the handle's own accessors. */
  lemma SizeVariantUrls(photo: Photo)
    ensures var r := GetPhotoDictionary(photo);
      && r["square_url"] == Some(photo.smallSquare)
      && r["thumbnail_url"] == Some(photo.thumbnail)
      && r["small_url"] == Some(photo.small)
      && r["medium_url"] == Some(photo.medium)
      && r["large_url"] == Some(photo.large)
  {
  }
}
