/** One run of the tool (ryfs.py:340-421) once `argparse` has done its work:
    an action with its operands, the `--size` value, and the bytes of the
    image file. The checks the main block makes come first, in its order:
    the 8.3 name check for the actions that take a file, the 16 MiB limit
    on `--size`, then the label, which `create` takes from `--label` and
    every other action decodes from the image. */
module Cli {
  import opened Outcomes
  import opened Bytes
  import opened Layout
  import opened Bitmap
  import opened Directory
  import opened Format
  import opened Files
  import opened Utf8
  import opened RoundTrip

  /** The action argument with what it works on. File names and extensions
      are the bytes the tool writes into the directory; `data` is the
      contents of the file to add; `boot` the contents of the `-b` file. */
  datatype Action =
    | AddFile(name: seq<byte>, ext: seq<byte>, data: seq<byte>)
    | CreateImage(volumeLabel: string, boot: Option<seq<byte>>)
    | ExportFile(name: seq<byte>, ext: seq<byte>)
    | ListFiles
    | RemoveFile(name: seq<byte>, ext: seq<byte>)

  /** What a run that did not stop hands back: the exported file's bytes
      for `export`, the decoded name fields `list` prints. */
  datatype Reply = Done | Exported(data: seq<byte>) | Listing(names: seq<seq<nat>>)

  /** The actions that take a file argument (ryfs.py:363-366). */
  predicate TakesFile(action: Action)
  {
    action.AddFile? || action.ExportFile? || action.RemoveFile?
  }

  /** The 8.3 check (ryfs.py:378): passes for actions without a file. */
  predicate NameAccepted(action: Action)
  {
    !TakesFile(action) || (|action.name| <= MaxNameLength && |action.ext| <= MaxExtLength)
  }

  /** The label every action but `create` reads from the image
      (ryfs.py:397-401): eight bytes from offset 518, fewer at the end of
      the file, decoded as UTF-8. */
  function StoredLabel(img: seq<byte>): (r: Option<seq<nat>>)
    ensures r.Some? ==> |r.value| <= MaxLabelLength
  {
    Decode(Read(img, LabelOffset, MaxLabelLength))
  }

  /** Each name field decoded, or `None` when one is not UTF-8 and
      `ryfs_list` raises at it (ryfs.py:189). */
  function DecodeAll(fields: seq<seq<byte>>): (r: Option<seq<seq<nat>>>)
    ensures r.Some? <==> forall k :: 0 <= k < |fields| ==> WellFormed(fields[k])
    ensures r.Some? ==> |r.value| == |fields|
    ensures r.Some? ==> forall k :: 0 <= k < |fields| ==> Decode(fields[k]) == Some(r.value[k])
    decreases |fields|
  {
    if fields == [] then Some([])
    else match Decode(fields[0])
      case None => None
      case Some(first) =>
        match DecodeAll(fields[1..])
        case None => None
        case Some(rest) => Some([first] + rest)
  }

  /** A file operation's outcome with `reply` for its success. */
  function Finish(o: Outcome<()>, reply: Reply): (r: Outcome<Reply>)
  {
    Outcome(if o.result.Ok? then Ok(reply) else Err(o.result.error), o.image)
  }

  /** The main block from the 8.3 check to the dispatch (ryfs.py:378-419).
      A check that fails leaves the image as it was; `export` and `list`
      only read it; `create` succeeds exactly for a size from 0 to 16 MiB
      and a label of at most eight characters below U+0100; every other
      action needs a stored label that decodes, which then is never too
      long. */
  function Run(img: seq<byte>, action: Action, size: int): (o: Outcome<Reply>)
    ensures o.result == Err(NameFormatInvalid) <==> !NameAccepted(action)
    ensures o.result == Err(ImageTooLarge) <==> NameAccepted(action) && size > MaxImageSize
    ensures o.result == Err(LabelTooLong) <==>
      NameAccepted(action) && size <= MaxImageSize && action.CreateImage? && |action.volumeLabel| > MaxLabelLength
    ensures o.result == Err(NameFormatInvalid) || o.result == Err(ImageTooLarge) || o.result == Err(LabelTooLong) ==> o.image == img
    ensures NameAccepted(action) && size <= MaxImageSize && !action.CreateImage? && StoredLabel(img).None? ==>
      o == Outcome(Err(Crashed), img)
    ensures action.ExportFile? || action.ListFiles? ==> o.image == img
    ensures action.CreateImage? ==> (o.result.Ok? <==>
      && 0 <= size <= MaxImageSize && |action.volumeLabel| <= MaxLabelLength
      && forall k :: 0 <= k < |action.volumeLabel| ==> action.volumeLabel[k] as int < 256)
    ensures action.CreateImage? && o.result.Ok? ==>
      o.image == Formatted(img, size, StrToBytes(action.volumeLabel).value, action.boot)
  {
    if !NameAccepted(action) then Outcome(Err(NameFormatInvalid), img)
    else if size > MaxImageSize then Outcome(Err(ImageTooLarge), img)
    else match action
      case CreateImage(volumeLabel, boot) =>
        if |volumeLabel| > MaxLabelLength then Outcome(Err(LabelTooLong), img)
        else if size < 0 then Outcome(Err(Crashed), img)
        else Finish(Create(img, size, volumeLabel, boot), Done)
      case _ =>
        match StoredLabel(img)
        case None => Outcome(Err(Crashed), img)
        case Some(stored) =>
          if |stored| > MaxLabelLength then Outcome(Err(LabelTooLong), img)
          else Perform(img, action)
  }

  /** The dispatch for the actions on an existing image (ryfs.py:407-416).
      `add` takes the bitmap sector count from byte 512. */
  function Perform(img: seq<byte>, action: Action): (o: Outcome<Reply>)
    requires NameAccepted(action) && !action.CreateImage?
    ensures o.result.Err? ==> o.result.error in {FileNotFound, DirectoryFull, StorageExhausted, Crashed}
    ensures action.ExportFile? || action.ListFiles? ==> o.image == img
    ensures action.ListFiles? ==> (o.result.Ok? <==> forall k :: 0 <= k < |List(img)| ==> WellFormed(List(img)[k]))
  {
    match action
    case AddFile(name, ext, data) => Finish(Add(img, At(img, HeaderOffset), name, ext, data), Done)
    case ExportFile(name, ext) =>
      (match Export(img, name, ext)
       case Ok(data) => Outcome(Ok(Exported(data)), img)
       case Err(e) => Outcome(Err(e), img))
    case ListFiles =>
      (match DecodeAll(List(img))
       case None => Outcome(Err(Crashed), img)
       case Some(names) => Outcome(Ok(Listing(names)), img))
    case RemoveFile(name, ext) => Finish(Remove(img, name, ext), Done)
  }

  /** The eight label bytes of an image `create` formatted over an empty
      file, or with a size that covers them: the label, then zeros. */
  lemma CreatedLabel(img: seq<byte>, size: nat, text: seq<byte>, boot: Option<seq<byte>>)
    requires size <= MaxImageSize && |text| <= MaxLabelLength
    requires size >= DirectoryEnd || img == []
    ensures |Read(Formatted(img, size, text, boot), LabelOffset, MaxLabelLength)| == MaxLabelLength
    ensures forall k :: 0 <= k < MaxLabelLength ==>
      Read(Formatted(img, size, text, boot), LabelOffset, MaxLabelLength)[k] == if k < |text| then text[k] else 0
  {
    var r := Formatted(img, size, text, boot);
    forall k | 0 <= k < MaxLabelLength
      ensures At(r, LabelOffset + k) == if k < |text| then text[k] else 0
    {
      CreateView(img, size, text, boot, LabelOffset + k);
    }
  }

  /** A run of an action other than `create` that passed the name and
      size checks and found a label it could decode goes on to the
      dispatch. */
  lemma RunsExisting(img: seq<byte>, action: Action, size: int)
    requires NameAccepted(action) && size <= MaxImageSize && !action.CreateImage?
    requires StoredLabel(img).Some?
    ensures Run(img, action, size) == Perform(img, action)
  {
  }

  /** `create` with an ASCII label, then `list` with any size the tool
      accepts: the label reads back and no file is listed. */
  lemma CreateThenList(img: seq<byte>, size: int, volumeLabel: string, boot: Option<seq<byte>>, size2: int)
    requires 0 <= size <= MaxImageSize && (size >= DirectoryEnd || img == [])
    requires |volumeLabel| <= MaxLabelLength && forall k :: 0 <= k < |volumeLabel| ==> volumeLabel[k] as int < 0x80
    requires size2 <= MaxImageSize
    ensures Run(img, CreateImage(volumeLabel, boot), size).result == Ok(Done)
    ensures var r := Run(img, CreateImage(volumeLabel, boot), size).image;
      Run(r, ListFiles, size2) == Outcome(Ok(Listing([])), r)
  {
    FormattedLists(img, size, StrToBytes(volumeLabel).value, boot, size2);
  }

  /** `list` on a formatted image with an ASCII label lists nothing. */
  lemma FormattedLists(img: seq<byte>, size: nat, text: seq<byte>, boot: Option<seq<byte>>, size2: int)
    requires size <= MaxImageSize && (size >= DirectoryEnd || img == [])
    requires |text| <= MaxLabelLength && forall k :: 0 <= k < |text| ==> text[k] < 0x80
    requires size2 <= MaxImageSize
    ensures Run(Formatted(img, size, text, boot), ListFiles, size2) == Outcome(Ok(Listing([])), Formatted(img, size, text, boot))
  {
    var r := Formatted(img, size, text, boot);
    CreatedLabel(img, size, text, boot);
    AsciiDecodes(Read(r, LabelOffset, MaxLabelLength));
    CreateListsNothing(img, size, text, boot);
    RunsExisting(r, ListFiles, size2);
  }

  /** `create` writes the label one byte per character, but the other
      actions decode it as UTF-8: after `create -l é` every other action
      stops at the label and leaves the image alone. */
  lemma LatinLabelUnreadable(img: seq<byte>, size: int, boot: Option<seq<byte>>, action: Action, size2: int)
    requires 0 <= size <= MaxImageSize && (size >= DirectoryEnd || img == [])
    requires NameAccepted(action) && !action.CreateImage? && size2 <= MaxImageSize
    ensures Run(img, CreateImage("\U{E9}", boot), size).result == Ok(Done)
    ensures var r := Run(img, CreateImage("\U{E9}", boot), size).image;
      Run(r, action, size2) == Outcome(Err(Crashed), r)
  {
    assert StrToBytes("\U{E9}").value == [0xE9];
    FormattedUnreadable(img, size, boot);
  }

  /** The label field of an image formatted with the label byte `E9` does
      not decode. */
  lemma FormattedUnreadable(img: seq<byte>, size: nat, boot: Option<seq<byte>>)
    requires size <= MaxImageSize && (size >= DirectoryEnd || img == [])
    ensures StoredLabel(Formatted(img, size, [0xE9], boot)).None?
  {
    var r := Formatted(img, size, [0xE9], boot);
    CreatedLabel(img, size, [0xE9], boot);
    var field := Read(r, LabelOffset, MaxLabelLength);
    assert field == [0xE9] + field[1..];
    LatinByteRejected(field[1..]);
  }

  /** `add`, then `export` of the same name, returns the file: the add
      leaves the label it decoded in place, and the entry it wrote leads
      back to the chain. */
  lemma AddThenExport(img: seq<byte>, name: seq<byte>, ext: seq<byte>, data: seq<byte>, size: int, r: seq<byte>)
    requires |name| <= MaxNameLength && |ext| == MaxExtLength
    requires forall k :: 0 <= k < |name| ==> name[k] != 0
    requires |img| >= DirectoryEnd && Reserved(img, At(img, HeaderOffset))
    requires UniqueKey(img, EntryKey(name, ext))
    requires FindEntry(img, name, ext).Some? ==> ReplaceableAt(img, FindEntry(img, name, ext).value, At(img, HeaderOffset))
    requires Run(img, AddFile(name, ext, data), size) == Outcome(Ok(Done), r)
    ensures Run(r, ExportFile(name, ext), size) == Outcome(Ok(Exported(data)), r)
  {
    var bs := At(img, HeaderOffset);
    AddedThrough(img, name, ext, data, size, r);
    AddExport(img, bs, name, ext, data, r);
    AddKeepsHeader(img, bs, name, ext, data, r);
    ReadFrame(r, img, LabelOffset, MaxLabelLength);
    RunsExisting(r, ExportFile(name, ext), size);
  }

  /** An `add` run that succeeded passed the checks and added the file
      with the bitmap sector count from byte 512. */
  lemma AddedThrough(img: seq<byte>, name: seq<byte>, ext: seq<byte>, data: seq<byte>, size: int, r: seq<byte>)
    requires |name| <= MaxNameLength
    requires Run(img, AddFile(name, ext, data), size) == Outcome(Ok(Done), r)
    ensures size <= MaxImageSize && StoredLabel(img).Some?
    ensures Add(img, At(img, HeaderOffset), name, ext, data) == Outcome(Ok(()), r)
  {
  }
}
