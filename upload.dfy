/**
 * The checks `process_image` makes on an upload before anything is sent to
 * the completion endpoint, in their fixed order: the content type (a missing
 * or empty one counts as `image/jpeg`) must be one of four image types, then
 * the file may hold at most 20 MiB, then it must not be empty. Each failure
 * is a 400 rejection with its own message.
 */
module Upload {
  import opened Wrappers
  import PyStr

  const AllowedTypes: seq<string> := ["image/jpeg", "image/png", "image/gif", "image/webp"]

  /** The type assumed when the upload declares none. */
  const DefaultType: string := "image/jpeg"

  /** 20 MiB, in bytes. */
  const MaxSize: nat := 20 * 1024 * 1024

  /** Why an upload is refused. */
  datatype Rejection =
    | UnsupportedType(contentType: string)
    | TooLarge
    | EmptyFile

  datatype Verdict = Accepted(contentType: string) | Rejected(reason: Rejection)

  /**
   * `file.content_type or "image/jpeg"`: Python's `or` falls back on the
   * default both when no type is declared and when the declared type is empty.
   */
  function EffectiveType(declared: Option<string>): (t: string)
    ensures t != ""
    ensures declared.Some? && declared.value != "" ==> t == declared.value
    ensures declared.None? || declared.value == "" ==> t == DefaultType
  {
    match declared
    case Some(t) => if t != "" then t else DefaultType
    case None => DefaultType
  }

  /** What an accepted upload satisfies: an allowed type and a size in 1..20 MiB. */
  predicate IsAcceptable(contentType: string, size: nat)
  {
    contentType in AllowedTypes && 0 < size <= MaxSize
  }

  /**
   * The verdict on an upload declaring `declared` and holding `size` bytes.
   * It accepts exactly the acceptable uploads, with their effective type; a
   * rejection names the first check that fails, content type before size
   * before emptiness.
   */
  function Validate(declared: Option<string>, size: nat): (v: Verdict)
    ensures v.Accepted? <==> IsAcceptable(EffectiveType(declared), size)
    ensures v.Accepted? ==> v.contentType == EffectiveType(declared)
    ensures EffectiveType(declared) !in AllowedTypes ==> v == Rejected(UnsupportedType(EffectiveType(declared)))
    ensures EffectiveType(declared) in AllowedTypes && size > MaxSize ==> v == Rejected(TooLarge)
    ensures EffectiveType(declared) in AllowedTypes && size == 0 ==> v == Rejected(EmptyFile)
  {
    var contentType := EffectiveType(declared);
    if contentType !in AllowedTypes then Rejected(UnsupportedType(contentType))
    else if size > MaxSize then Rejected(TooLarge)
    else if size == 0 then Rejected(EmptyFile)
    else Accepted(contentType)
  }

  /** Every rejection is a client error. */
  const RejectionStatus: nat := 400

  /**
   * `max_size / 1024 / 1024` as Python prints it: a float division, here a
   * whole number of MiB, rendered with a trailing `.0`.
   */
  function MaxSizeInMiB(): (t: string)
    ensures t == "20.0"
  {
    assert MaxSize / 1024 / 1024 == 20;
    assert PyStr.NatToString(20) == PyStr.NatToString(2) + ['0'];
    PyStr.NatToString(MaxSize / 1024 / 1024) + ".0"
  }

  const UnsupportedPrefix: string := "不支持的文件类型: "

  /** The message of each rejection. */
  function Detail(r: Rejection): (d: string)
    ensures r.UnsupportedType? ==> UnsupportedPrefix + r.contentType <= d
    ensures r.UnsupportedType? ==> var listed := PyStr.Join(AllowedTypes, ", ");
      |listed| <= |d| && d[|d| - |listed|..] == listed
    ensures r.TooLarge? ==> d == "文件太大. 最大允许大小: 20.0MB"
    ensures r.EmptyFile? ==> d == "文件为空"
  {
    match r
    case UnsupportedType(t) =>
      var head := UnsupportedPrefix + t + ". 支持的类型: ";
      var listed := PyStr.Join(AllowedTypes, ", ");
      assert (head + listed)[|head|..] == listed;
      head + listed
    case TooLarge => "文件太大. 最大允许大小: " + MaxSizeInMiB() + "MB"
    case EmptyFile => "文件为空"
  }

  /** The allowed types as the unsupported-type message lists them. */
  lemma AllowedTypesListed()
    ensures PyStr.Join(AllowedTypes, ", ") == "image/jpeg, image/png, image/gif, image/webp"
  {
  }

  /** The three rejections carry three different messages; the type one names the offending type. */
  lemma DetailsDistinct(t: string)
    ensures Detail(EmptyFile) != Detail(TooLarge)
    ensures Detail(UnsupportedType(t)) != Detail(TooLarge)
    ensures Detail(UnsupportedType(t)) != Detail(EmptyFile)
    ensures t <= Detail(UnsupportedType(t))[|UnsupportedPrefix|..]
  {
    var d := Detail(UnsupportedType(t));
    assert d[0] != Detail(TooLarge)[0] && d[0] != Detail(EmptyFile)[0];
    assert (UnsupportedPrefix + t)[|UnsupportedPrefix|..] == t;
  }

  /** The size bound is inclusive: exactly 20 MiB passes and one byte more is too large. */
  lemma SizeBoundary(declared: Option<string>)
    requires EffectiveType(declared) in AllowedTypes
    ensures Validate(declared, MaxSize) == Accepted(EffectiveType(declared))
    ensures Validate(declared, MaxSize + 1) == Rejected(TooLarge)
  {
  }

  /** An upload with no declared type, or an empty one, is accepted as `image/jpeg`. */
  lemma MissingTypeDefaultsToJpeg(size: nat)
    requires 0 < size <= MaxSize
    ensures Validate(None, size) == Accepted("image/jpeg")
    ensures Validate(Some(""), size) == Accepted("image/jpeg")
  {
  }
}
