/**
 * The demonstration script's handling of returned images: `save_base64_image`
 * splits a string at its first comma into a data URL header and a base 64
 * payload, takes the file extension from the header's MIME subtype (`png`
 * when there is none), and writes the decoded bytes to
 * `<dir>/image_<timestamp>_<index>.<format>`; the loop over the reply's
 * images picks what to save from each entry with its own precedence.
 * The clock and the success of each file write are parameters.
 */
module SaveImage {
  import opened Wrappers
  import PyStr
  import opened PyValue
  import Base64
  import DataUrl
  import Reply

  /** The extension used when the header names no subtype. */
  const DefaultFormat: string := "png"

  /**
   * `f` is the subtype field of `header`: the longest run of characters after
   * the header's first `/` that holds neither `/` nor `;`.
   */
  predicate IsSubtypeField(header: string, f: string)
    requires '/' in header
  {
    var rest := header[PyStr.IndexOf(header, '/') + 1..];
    f <= rest && '/' !in f && ';' !in f && (|f| == |rest| || rest[|f|] == '/' || rest[|f|] == ';')
  }

  /** The first `;`-field of the first `/`-field of `rest` ends at its first `/` or `;`. */
  lemma FieldOfField(rest: string, field: string, f: string)
    requires PyStr.IsFirstField(rest, '/', field) && PyStr.IsFirstField(field, ';', f)
    ensures f <= rest && '/' !in f && ';' !in f
    ensures |f| == |rest| || rest[|f|] == '/' || rest[|f|] == ';'
  {
    if |f| < |field| {
      assert rest[|f|] == field[|f|];
    }
  }

  /**
   * `header.split('/')[1].split(';')[0]` when the header holds both `/` and
   * `;`, and `png` otherwise.
   */
  function FormatOf(header: string): (f: string)
    ensures !('/' in header && ';' in header) ==> f == DefaultFormat
    ensures '/' in header && ';' in header ==> IsSubtypeField(header, f)
  {
    if '/' in header && ';' in header then
      PyStr.SplitSecondField(header, '/');
      var field := PyStr.Split(header, '/')[1];
      PyStr.SplitFirstField(field, ';');
      var f := PyStr.Split(field, ';')[0];
      FieldOfField(header[PyStr.IndexOf(header, '/') + 1..], field, f);
      f
    else DefaultFormat
  }

  /** The subtype field of a header is unique. */
  lemma SubtypeFieldUnique(header: string, f: string, g: string)
    requires '/' in header
    requires IsSubtypeField(header, f) && IsSubtypeField(header, g)
    ensures f == g
  {
  }

  /** What `save_base64_image` takes from its string: the extension and the base 64 data. */
  datatype Parsed = Parsed(format: string, payload: string)

  /**
   * The comma split of `save_base64_image`: a string without a comma is all payload, saved as `png`;
   * otherwise the payload is everything after the first comma, further commas
   * included, and the format comes from the header before it.
   */
  function ParseImageString(s: string): (p: Parsed)
    ensures ',' !in s ==> p == Parsed(DefaultFormat, s)
    ensures ',' in s ==> var h := PyStr.IndexOf(s, ',');
      p == Parsed(FormatOf(s[..h]), s[h + 1..])
  {
    if ',' in s then
      var (header, payload) := PyStr.SplitOnce(s, ',');
      Parsed(FormatOf(header), payload)
    else Parsed(DefaultFormat, s)
  }

  /** `f"image_{timestamp}_{index}.{img_format}"`. */
  function FileName(timestamp: string, index: nat, format: string): (n: string)
    ensures var stem := "image_" + timestamp + "_";
      && |stem| + |format| + 2 <= |n|
      && stem <= n
      && n[|n| - |format| - 1..] == "." + format
      && PyStr.IsDigits(n[|stem|..|n| - |format| - 1])
      && PyStr.DigitsValue(n[|stem|..|n| - |format| - 1]) == index
      && (|n| - |format| - 1 - |stem| > 1 ==> n[|stem|] != '0')
  {
    var stem, digits := "image_" + timestamp + "_", PyStr.NatToString(index);
    PyStr.DigitsValueOfNatToString(index);
    var n := stem + digits + "." + format;
    assert n[|stem|..|n| - |format| - 1] == digits;
    assert n[|n| - |format| - 1..] == "." + format;
    n
  }

  /** Within one timestamp, files of different indices never share a name, whatever their formats. */
  lemma FileNamesDistinct(timestamp: string, i: nat, j: nat, f: string, g: string)
    requires i != j
    ensures FileName(timestamp, i, f) != FileName(timestamp, j, g)
  {
    var prefix := "image_" + timestamp + "_";
    var di, dj := PyStr.NatToString(i), PyStr.NatToString(j);
    var a, b := di + ['.'] + f, dj + ['.'] + g;
    assert FileName(timestamp, i, f) == prefix + a;
    assert FileName(timestamp, j, g) == prefix + b;
    assert '.' !in di && '.' !in dj;
    PyStr.SplitOnceJoined(di, '.', f);
    PyStr.SplitOnceJoined(dj, '.', g);
    PyStr.NatToStringInjective(i, j);
    assert (prefix + a)[|prefix|..] == a && (prefix + b)[|prefix|..] == b;
  }

  /** The effect of one successful save: the file written, for the call with this index. */
  datatype Write = Write(index: nat, path: string, data: seq<Base64.byte>)

  /** How a call of `save_base64_image` ends: a file written, `None` returned, or an exception raised. */
  datatype SaveOutcome = Saved(write: Write) | NotSaved | Aborted(exception: Exception)

  /** The path of the file for a call: the output directory joined with its file name. */
  function PathFor(outputDir: string, timestamp: string, index: nat, format: string): (p: string)
    ensures |outputDir| < |p| && p[..|outputDir|] == outputDir && p[|outputDir|] == '/'
    ensures p[|outputDir| + 1..] == FileName(timestamp, index, format)
  {
    var p := outputDir + "/" + FileName(timestamp, index, format);
    assert p[|outputDir| + 1..] == FileName(timestamp, index, format);
    p
  }

  /**
   * `save_base64_image(arg, output_dir, index)` with the clock reading
   * `timestamp` and a write that succeeds when `writable`. For a str, a payload
   * that does not decode or a write that fails gives `None`, never an
   * exception. Any other value fails before the `try`: `',' in arg` raises on a
   * value that is no container, and `arg.split` on a list or dict holding `','`;
   * otherwise decoding it fails inside the `try` and gives `None`.
   */
  function SaveBase64Image(arg: Value, outputDir: string, timestamp: string, index: nat, writable: bool): (r: SaveOutcome)
    ensures r.Saved? <==> arg.Str? && writable && Base64.Decode(ParseImageString(arg.s).payload).Some?
    ensures r.Saved? ==> var parsed := ParseImageString(arg.s);
      && r.write.index == index
      && r.write.path == PathFor(outputDir, timestamp, index, parsed.format)
      && Base64.Decode(parsed.payload) == Some(r.write.data)
    ensures r.Aborted? <==> !IsContainer(arg) || (arg.List? && Str(",") in arg.items) || (arg.Dict? && "," in arg.fields)
  {
    match arg
    case Str(s) =>
      var parsed := ParseImageString(s);
      var path := PathFor(outputDir, timestamp, index, parsed.format);
      (match Base64.Decode(parsed.payload)
       case None => NotSaved
       case Some(data) => if writable then Saved(Write(index, path, data)) else NotSaved)
    case List(items) =>
      if Str(",") in items then Aborted(AttributeError("'list' object has no attribute 'split'")) else NotSaved
    case Dict(fields) =>
      if "," in fields then Aborted(AttributeError("'dict' object has no attribute 'split'")) else NotSaved
    case _ => Aborted(TypeError("argument of type '" + TypeName(arg) + "' is not iterable"))
  }

  /**
   * What the loop passes to `save_base64_image` for one entry: a str itself;
   * in a dict `b64_json`, else `image_url['url']` (looked up without checking
   * that `url` is there, so it may raise), else `data`. Other entries are skipped.
   */
  function SelectArgument(entry: Value): (r: Option<Result<Value, Exception>>)
    ensures entry.Str? ==> r == Some(Ok(entry))
    ensures r.None? <==> (!entry.Str? && !(entry.Dict? &&
      ("b64_json" in entry.fields || "image_url" in entry.fields || "data" in entry.fields)))
    ensures (r.Some? && r.value.Err?) <==> (entry.Dict? && "b64_json" !in entry.fields && "image_url" in entry.fields
      && !(entry.fields["image_url"].Dict? && "url" in entry.fields["image_url"].fields))
  {
    match entry
    case Str(_) => Some(Ok(entry))
    case Dict(m) =>
      if "b64_json" in m then Some(Ok(m["b64_json"]))
      else if "image_url" in m then Some(GetItem(m["image_url"], "url"))
      else if "data" in m then Some(Ok(m["data"]))
      else None
    case _ => None
  }

  /** The files the loop has written and the exception that stopped it, if one did. */
  datatype Run = Run(written: seq<Write>, aborted: Option<Exception>)

  /**
   * What one pass of the loop does with entry `i`: nothing for an entry it
   * skips, otherwise how its call of `save_base64_image` ends; an exception
   * raised while selecting the argument ends the pass like one raised by the
   * call.
   */
  function Attempt(entry: Value, i: nat, outputDir: string, clock: nat -> string, writable: nat -> bool): Option<SaveOutcome>
  {
    match SelectArgument(entry)
    case None => None
    case Some(Err(e)) => Some(Aborted(e))
    case Some(Ok(arg)) => Some(SaveBase64Image(arg, outputDir, clock(i), i, writable(i)))
  }

  /**
   * How one pass changes the loop's progress: nothing once the script has
   * stopped or when the pass does nothing, its file appended when it writes
   * one, and the exception recorded when it raises.
   */
  function Step(run: Run, pass: Option<SaveOutcome>): (next: Run)
    ensures run.written <= next.written && |next.written| <= |run.written| + 1
    ensures run.aborted.Some? ==> next == run
  {
    if run.aborted.Some? then run
    else
      match pass
      case None => run
      case Some(Saved(w)) => Run(run.written + [w], None)
      case Some(NotSaved) => run
      case Some(Aborted(e)) => Run(run.written, Some(e))
  }

  /**
   * The loop over `entries`: entry `i` is saved with index `i`, the clock
   * reading `clock(i)` and the write outcome `writable(i)`; the first exception
   * ends the script.
   */
  function SaveAll(entries: seq<Value>, outputDir: string, clock: nat -> string, writable: nat -> bool): (r: Run)
    ensures |r.written| <= |entries|
  {
    if |entries| == 0 then Run([], None)
    else
      var i := |entries| - 1;
      Step(SaveAll(entries[..i], outputDir, clock, writable), Attempt(entries[i], i, outputDir, clock, writable))
  }

  /** Once the loop has stopped on a prefix, the rest of the entries change nothing. */
  lemma {:induction false} SaveAllStopsAtAbort(
    entries: seq<Value>, j: nat, outputDir: string, clock: nat -> string, writable: nat -> bool)
    requires j <= |entries| && SaveAll(entries[..j], outputDir, clock, writable).aborted.Some?
    ensures SaveAll(entries, outputDir, clock, writable) == SaveAll(entries[..j], outputDir, clock, writable)
    decreases |entries| - j
  {
    if j < |entries| {
      assert entries[..j + 1][..j] == entries[..j];
      SaveAllStopsAtAbort(entries, j + 1, outputDir, clock, writable);
    } else {
      assert entries[..j] == entries;
    }
  }

  /** The loop's progress after entry `i` is one `Step` on from its progress before it. */
  lemma SaveAllNext(entries: seq<Value>, i: nat, outputDir: string, clock: nat -> string, writable: nat -> bool)
    requires i < |entries|
    ensures SaveAll(entries[..i + 1], outputDir, clock, writable)
      == Step(SaveAll(entries[..i], outputDir, clock, writable), Attempt(entries[i], i, outputDir, clock, writable))
  {
    assert entries[..i + 1][..i] == entries[..i];
  }

  /**
   * One pass of the `for i, image_data in enumerate(response_message.images)`
   * loop of the script: select the argument for entry `i`,
   * then save it; `None` when the entry is skipped.
   */
  method SavePass(entry: Value, i: nat, outputDir: string, clock: nat -> string, writable: nat -> bool)
    returns (pass: Option<SaveOutcome>)
    ensures pass == Attempt(entry, i, outputDir, clock, writable)
  {
    var selected := SelectArgument(entry);
    if selected.None? {
      return None;
    }
    if selected.value.Err? {
      return Some(Aborted(selected.value.error));
    }
    var outcome := SaveBase64Image(selected.value.value, outputDir, clock(i), i, writable(i));
    return Some(outcome);
  }

  /** The script's `enumerate` loop over the reply's images, saving each selected image in turn. */
  method SaveImages(images: Option<seq<Value>>, outputDir: string, clock: nat -> string, writable: nat -> bool)
    returns (written: seq<Write>, aborted: Option<Exception>)
    ensures Run(written, aborted) == SaveAll(Reply.Entries(images), outputDir, clock, writable)
  {
    written, aborted := [], None;
    if images.None? || images.value == [] {
      return;
    }
    var entries := images.value;
    var i := 0;
    while i < |entries|
      invariant 0 <= i <= |entries|
      invariant SaveAll(entries[..i], outputDir, clock, writable) == Run(written, None)
    {
      SaveAllNext(entries, i, outputDir, clock, writable);
      var pass := SavePass(entries[i], i, outputDir, clock, writable);
      if pass.Some? && pass.value.Saved? {
        written := written + [pass.value.write];
      } else if pass.Some? && pass.value.Aborted? {
        aborted := Some(pass.value.exception);
        SaveAllStopsAtAbort(entries, i + 1, outputDir, clock, writable);
        return;
      }
      i := i + 1;
    }
    assert entries[..i] == entries;
  }

  /** A write whose path is that of the call with its index. */
  ghost predicate NamedByIndex(w: Write, outputDir: string, clock: nat -> string)
  {
    exists f :: w.path == PathFor(outputDir, clock(w.index), w.index, f)
  }

  /** A file that one pass writes carries that pass's index and is named by it. */
  lemma AttemptIsNamed(entry: Value, i: nat, outputDir: string, clock: nat -> string, writable: nat -> bool)
    ensures var a := Attempt(entry, i, outputDir, clock, writable);
      a.Some? && a.value.Saved? ==> a.value.write.index == i && NamedByIndex(a.value.write, outputDir, clock)
  {
    var a := Attempt(entry, i, outputDir, clock, writable);
    if a.Some? && a.value.Saved? {
      var arg := SelectArgument(entry).value.value;
      assert a.value.write.path == PathFor(outputDir, clock(i), i, ParseImageString(arg.s).format);
    }
  }

  /** File `x` is what the pass over entry `x.index` of `entries` wrote. */
  predicate WrittenByPass(entries: seq<Value>, x: Write, outputDir: string, clock: nat -> string, writable: nat -> bool)
  {
    x.index < |entries| && Attempt(entries[x.index], x.index, outputDir, clock, writable) == Some(Saved(x))
  }

  /** More entries after the ones a pass read do not change what that pass wrote. */
  lemma WrittenByPassExtends(
    init: seq<Value>, entries: seq<Value>, x: Write, outputDir: string, clock: nat -> string, writable: nat -> bool)
    requires |init| <= |entries| && init == entries[..|init|]
    requires WrittenByPass(init, x, outputDir, clock, writable)
    ensures WrittenByPass(entries, x, outputDir, clock, writable)
  {
    assert entries[x.index] == init[x.index];
  }

  /** A file that one more entry adds is the one its pass wrote. */
  lemma SaveAllStep(entries: seq<Value>, outputDir: string, clock: nat -> string, writable: nat -> bool)
    requires |entries| > 0
    ensures var i := |entries| - 1;
      var w0 := SaveAll(entries[..i], outputDir, clock, writable).written;
      var w := SaveAll(entries, outputDir, clock, writable).written;
      && w0 <= w && |w| <= |w0| + 1
      && (|w| == |w0| + 1 ==> w[|w0|].index == i && WrittenByPass(entries, w[|w0|], outputDir, clock, writable))
  {
    var i := |entries| - 1;
    var a := Attempt(entries[i], i, outputDir, clock, writable);
    if a.Some? && a.value.Saved? {
      assert a.value.write.index == i;
    }
  }

  /** Each file the loop writes is exactly what the pass over its entry wrote. */
  lemma {:induction false} SaveAllWritesByPass(entries: seq<Value>, outputDir: string, clock: nat -> string, writable: nat -> bool)
    ensures var w := SaveAll(entries, outputDir, clock, writable).written;
      forall k :: 0 <= k < |w| ==> WrittenByPass(entries, w[k], outputDir, clock, writable)
    decreases |entries|
  {
    if |entries| > 0 {
      var init := entries[..|entries| - 1];
      SaveAllWritesByPass(init, outputDir, clock, writable);
      SaveAllStep(entries, outputDir, clock, writable);
      var w0 := SaveAll(init, outputDir, clock, writable).written;
      var w := SaveAll(entries, outputDir, clock, writable).written;
      forall k | 0 <= k < |w0|
        ensures WrittenByPass(entries, w[k], outputDir, clock, writable)
      {
        assert w[k] == w0[k];
        WrittenByPassExtends(init, entries, w0[k], outputDir, clock, writable);
      }
    }
  }

  /** The loop writes files in entry order: their indices strictly increase. */
  lemma {:induction false} SaveAllIndicesIncrease(entries: seq<Value>, outputDir: string, clock: nat -> string, writable: nat -> bool)
    ensures var w := SaveAll(entries, outputDir, clock, writable).written;
      forall k, l :: 0 <= k < l < |w| ==> w[k].index < w[l].index
    decreases |entries|
  {
    if |entries| > 0 {
      var i := |entries| - 1;
      var init := entries[..i];
      SaveAllIndicesIncrease(init, outputDir, clock, writable);
      SaveAllWritesByPass(init, outputDir, clock, writable);
      SaveAllStep(entries, outputDir, clock, writable);
      var w0 := SaveAll(init, outputDir, clock, writable).written;
      var w := SaveAll(entries, outputDir, clock, writable).written;
      forall k | 0 <= k < |w0|
        ensures w[k] == w0[k] && w0[k].index < i
      {
        assert WrittenByPass(init, w0[k], outputDir, clock, writable);
      }
    }
  }

  /**
   * The loop writes at most one file per entry, in entry order, and each
   * file is exactly what the pass over its entry wrote.
   */
  lemma SaveAllWritesInOrder(entries: seq<Value>, outputDir: string, clock: nat -> string, writable: nat -> bool)
    ensures var w := SaveAll(entries, outputDir, clock, writable).written;
      && |w| <= |entries|
      && (forall k :: 0 <= k < |w| ==> WrittenByPass(entries, w[k], outputDir, clock, writable))
      && (forall k, l :: 0 <= k < l < |w| ==> w[k].index < w[l].index)
  {
    SaveAllWritesByPass(entries, outputDir, clock, writable);
    SaveAllIndicesIncrease(entries, outputDir, clock, writable);
  }

  /** A pass that runs and writes a file adds exactly that file. */
  lemma SaveAllAppends(entries: seq<Value>, outputDir: string, clock: nat -> string, writable: nat -> bool)
    requires |entries| > 0
    ensures var i := |entries| - 1;
      var run := SaveAll(entries[..i], outputDir, clock, writable);
      var a := Attempt(entries[i], i, outputDir, clock, writable);
      run.aborted.None? && a.Some? && a.value.Saved? ==>
        SaveAll(entries, outputDir, clock, writable).written == run.written + [a.value.write]
  {
  }

  /**
   * Conversely, every pass before the one that stops the script whose save
   * succeeds has its file among the files written.
   */
  lemma {:induction false} EverySaveIsWritten(entries: seq<Value>, outputDir: string, clock: nat -> string, writable: nat -> bool)
    ensures var w := SaveAll(entries, outputDir, clock, writable).written;
      forall i :: 0 <= i < |entries| && SaveAll(entries[..i], outputDir, clock, writable).aborted.None?
        && Attempt(entries[i], i, outputDir, clock, writable).Some?
        && Attempt(entries[i], i, outputDir, clock, writable).value.Saved?
        ==> Attempt(entries[i], i, outputDir, clock, writable).value.write in w
    decreases |entries|
  {
    if |entries| > 0 {
      var n := |entries|;
      var init := entries[..n - 1];
      EverySaveIsWritten(init, outputDir, clock, writable);
      SaveAllStep(entries, outputDir, clock, writable);
      SaveAllAppends(entries, outputDir, clock, writable);
      var w0 := SaveAll(init, outputDir, clock, writable).written;
      var w := SaveAll(entries, outputDir, clock, writable).written;
      forall i | 0 <= i < n && SaveAll(entries[..i], outputDir, clock, writable).aborted.None?
        && Attempt(entries[i], i, outputDir, clock, writable).Some?
        && Attempt(entries[i], i, outputDir, clock, writable).value.Saved?
        ensures Attempt(entries[i], i, outputDir, clock, writable).value.write in w
      {
        var x := Attempt(entries[i], i, outputDir, clock, writable).value.write;
        if i < n - 1 {
          assert entries[..i] == init[..i] && entries[i] == init[i];
          var j :| 0 <= j < |w0| && w0[j] == x;
          assert w[j] == x;
        } else {
          assert entries[..i] == init;
        }
      }
    }
  }

  /**
   * When every clock reading is the same second, the loop never writes two
   * files to the same path: the index in the name keeps them apart.
   */
  lemma DistinctPathsWithinOneSecond(
    entries: seq<Value>, outputDir: string, clock: nat -> string, writable: nat -> bool, timestamp: string)
    requires forall i :: clock(i) == timestamp
    ensures var w := SaveAll(entries, outputDir, clock, writable).written;
      forall k, l :: 0 <= k < l < |w| ==> w[k].path != w[l].path
  {
    var w := SaveAll(entries, outputDir, clock, writable).written;
    SaveAllWritesInOrder(entries, outputDir, clock, writable);
    forall k, l | 0 <= k < l < |w|
      ensures w[k].path != w[l].path
    {
      AttemptIsNamed(entries[w[k].index], w[k].index, outputDir, clock, writable);
      AttemptIsNamed(entries[w[l].index], w[l].index, outputDir, clock, writable);
      var f :| w[k].path == PathFor(outputDir, clock(w[k].index), w[k].index, f);
      var g :| w[l].path == PathFor(outputDir, clock(w[l].index), w[l].index, g);
      FileNamesDistinct(timestamp, w[k].index, w[l].index, f, g);
      var prefix := outputDir + "/";
      var a, b := FileName(timestamp, w[k].index, f), FileName(timestamp, w[l].index, g);
      assert w[k].path == prefix + a && w[l].path == prefix + b;
      assert (prefix + a)[|prefix|..] == a && (prefix + b)[|prefix|..] == b;
    }
  }

  /** A MIME type `kind/subtype` with no `/`, `;` or `,` inside either part, as all four allowed types are. */
  predicate IsPlainMimeType(kind: string, subtype: string)
  {
    && '/' !in kind && ';' !in kind && ',' !in kind
    && '/' !in subtype && ';' !in subtype && ',' !in subtype
  }

  /** The header of a data URL with a plain MIME type gives that type's subtype as the format. */
  lemma FormatOfDataUrlHeader(kind: string, subtype: string)
    requires IsPlainMimeType(kind, subtype)
    ensures FormatOf("data:" + (kind + "/" + subtype) + ";base64") == subtype
  {
    var header := "data:" + (kind + "/" + subtype) + ";base64";
    var rest := subtype + ";base64";
    assert header == ("data:" + kind) + ['/'] + rest;
    PyStr.IndexOfAfter("data:" + kind, '/', rest);
    assert header[PyStr.IndexOf(header, '/') + 1..] == rest;
    assert rest[|subtype|] == ';';
    assert IsSubtypeField(header, subtype);
    SubtypeFieldUnique(header, FormatOf(header), subtype);
  }

  /**
   * The script reads back what the relay sends: parsing the data URL of
   * `imageBytes` with a plain MIME type gives its subtype as the format and
   * the base 64 payload, and saving it writes exactly the image bytes.
   */
  lemma SavesEncodedImage(imageBytes: seq<Base64.byte>, kind: string, subtype: string,
                          outputDir: string, timestamp: string, index: nat)
    requires IsPlainMimeType(kind, subtype)
    ensures var url := DataUrl.EncodeImageFromBytes(imageBytes, kind + "/" + subtype);
      && ParseImageString(url) == Parsed(subtype, Base64.Encode(imageBytes))
      && SaveBase64Image(Str(url), outputDir, timestamp, index, true)
         == Saved(Write(index, PathFor(outputDir, timestamp, index, subtype), imageBytes))
  {
    DataUrl.SplitAtFirstComma(imageBytes, kind + "/" + subtype);
    FormatOfDataUrlHeader(kind, subtype);
    Base64.DecodeEncode(imageBytes);
  }

  /** The main program's choice for an entry, put in the terms of `SelectArgument`. */
  function AsSelection(r: Result<Option<Value>, Exception>): Option<Result<Value, Exception>>
  {
    match r
    case Ok(None) => None
    case Ok(Some(v)) => Some(Ok(v))
    case Err(e) => Some(Err(e))
  }

  /**
   * The script and the relay pick the same image from every entry, unless the
   * entry has `image_url` without `b64_json` and that `image_url` is not a
   * dict holding `url`.
   */
  lemma SamePrecedenceAsRelay(entry: Value)
    requires entry.Dict? && "b64_json" !in entry.fields && "image_url" in entry.fields
      ==> entry.fields["image_url"].Dict? && "url" in entry.fields["image_url"].fields
    ensures Reply.ExtractImage(entry).Ok?
    ensures SelectArgument(entry) == AsSelection(Reply.ExtractImage(entry))
  {
  }

  /**
   * Where the two part ways: for `{image_url: {}, data: "QUJD"}` the relay
   * skips to `data`, while the script's unguarded `image_url['url']` raises.
   */
  lemma PrecedenceDiffersOnImageUrlWithoutUrl()
    ensures var entry := Dict(map["image_url" := Dict(map[]), "data" := Str("QUJD")]);
      && Reply.ExtractImage(entry) == Ok(Some(Str("QUJD")))
      && SelectArgument(entry) == Some(Err(KeyError("url")))
  {
  }
}
