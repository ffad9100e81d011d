/**
 * The file input of src/form-custom/custom-input-fields/input-file.component.jsx:
 * `validateFiles` checks every chosen file's MIME type against the `accept`
 * list, and the change handler builds the label text, records validity and
 * hands the parent either the real event or an empty file event.
 *
 * The size text of each file (`calculateSizeUnit`, floating-point
 * formatting) is a parameter; the element's custom validity message is a
 * field of the component.
 */
module InputFile {
  import opened Js

  const Unsupported: string := "File format not supported"
  const Separator: string := ", "
  const NoFiles: string := "Choose a file"

  // ---------------------------------------------------------------------
  // MIME type validation
  // ---------------------------------------------------------------------

  /** Every file's MIME type is an exact token of `accept.split(', ')`; no `accept` accepts anything. */
  predicate FilesValid(files: seq<FileInfo>, accept: string) {
    accept == "" || forall i :: 0 <= i < |files| ==> files[i].mimeType in Split(accept, Separator)
  }

  /** The loop of `validateFiles`: the first refused file ends it with the message set. */
  method ValidateFiles(files: seq<FileInfo>, accept: string) returns (valid: bool, message: string)
    ensures valid == FilesValid(files, accept)
    ensures message == if valid then "" else Unsupported
  {
    if accept != "" {
      var validExtensions := Split(accept, Separator);
      var i := 0;
      while i < |files|
        invariant 0 <= i <= |files|
        invariant forall j :: 0 <= j < i ==> files[j].mimeType in validExtensions
      {
        if files[i].mimeType !in validExtensions {
          return false, Unsupported;
        }
        i := i + 1;
      }
    }
    return true, "";
  }

  /** No files, or no `accept`, is always valid. */
  lemma NothingToRefuse(files: seq<FileInfo>, accept: string)
    requires files == [] || accept == ""
    ensures FilesValid(files, accept)
  {
  }

  /** A file whose type is the first token of a longer accept list passes. */
  lemma FirstTokenAccepted(first: string, rest: string, file: FileInfo)
    requires first != [] && ',' !in first && file.mimeType == first
    ensures FilesValid([file], first + Separator + rest)
  {
    SplitAtFirst(first, rest, Separator);
  }

  /** One refused file anywhere in the list makes the whole choice invalid. */
  lemma OneRefusedSpoilsAll(files: seq<FileInfo>, accept: string, i: int)
    requires accept != "" && 0 <= i < |files|
    requires files[i].mimeType !in Split(accept, Separator)
    ensures !FilesValid(files, accept)
  {
  }

  /** The comparison is exact: with a one-token list, any other type is refused, a prefix included. */
  lemma OnlyExactType(accepted: string, file: FileInfo)
    requires accepted != [] && ',' !in accepted && file.mimeType != accepted
    ensures !FilesValid([file], accepted)
  {
    SplitWithoutSeparator(accepted, Separator);
    assert [file][0].mimeType !in Split(accepted, Separator);
  }

  // ---------------------------------------------------------------------
  // The label
  // ---------------------------------------------------------------------

  /** `${name} [${sizeWithUnit}]` for one file. */
  function Entry(file: FileInfo, sizeText: nat -> string): string {
    file.name + " [" + sizeText(file.size) + "]"
  }

  function Entries(files: seq<FileInfo>, sizeText: nat -> string): (entries: seq<string>)
    ensures |entries| == |files|
    ensures forall i :: 0 <= i < |files| ==> entries[i] == Entry(files[i], sizeText)
    decreases |files|
  {
    if files == [] then [] else Entries(files[..|files| - 1], sizeText) + [Entry(files[|files| - 1], sizeText)]
  }

  /** The label: the entries, one per line, or "Choose a file" when that text is empty. */
  function Label(files: seq<FileInfo>, sizeText: nat -> string): string {
    var text := Join(Entries(files, sizeText), "\n");
    if text != "" then text else NoFiles
  }

  /** The label loop: each entry is appended, followed by a newline unless it is the last. */
  method BuildLabel(files: seq<FileInfo>, sizeText: nat -> string) returns (text: string)
    ensures text == Join(Entries(files, sizeText), "\n")
  {
    text := "";
    var i := 0;
    while i < |files|
      invariant 0 <= i <= |files|
      invariant text == if i == 0 then "" else Join(Entries(files[..i], sizeText), "\n") + (if i < |files| then "\n" else "")
    {
      var entry := Entry(files[i], sizeText);
      assert files[..i + 1] == files[..i] + [files[i]];
      assert Entries(files[..i + 1], sizeText) == Entries(files[..i], sizeText) + [entry];
      if i > 0 {
        JoinSnoc(Entries(files[..i], sizeText), "\n", entry);
      } else {
        assert Entries(files[..1], sizeText) == [entry];
      }
      text := text + entry;
      if i != |files| - 1 {
        text := text + "\n";
      }
      i := i + 1;
    }
    assert files[..|files|] == files;
  }

  /** A list of lines, each ending in ']', joins to a text ending in ']'. */
  lemma {:induction false} JoinEndsWithBracket(parts: seq<string>)
    requires parts != []
    requires forall i :: 0 <= i < |parts| ==> parts[i] != [] && parts[i][|parts[i]| - 1] == ']'
    ensures var text := Join(parts, "\n"); text != [] && text[|text| - 1] == ']'
    decreases |parts|
  {
    if |parts| > 1 {
      JoinEndsWithBracket(parts[1..]);
    }
  }

  /** "Choose a file" shows exactly when no file is chosen: every entry ends in ']'. */
  lemma LabelEmptyIffNoFiles(files: seq<FileInfo>, sizeText: nat -> string)
    ensures Label(files, sizeText) == NoFiles <==> files == []
  {
    if files != [] {
      var entries := Entries(files, sizeText);
      JoinEndsWithBracket(entries);
    }
  }

  /** Two files give two lines with no newline after the last. */
  lemma TwoFileLabel(a: FileInfo, b: FileInfo, sizeText: nat -> string)
    ensures Label([a, b], sizeText) == Entry(a, sizeText) + "\n" + Entry(b, sizeText)
  {
    assert [a, b][..1] == [a];
    var entries := [Entry(a, sizeText), Entry(b, sizeText)];
    assert Entries([a, b], sizeText) == entries;
    assert entries[1..] == [Entry(b, sizeText)];
    assert Join(entries, "\n") == entries[0] + "\n" + Join(entries[1..], "\n");
  }

  // ---------------------------------------------------------------------
  // The component
  // ---------------------------------------------------------------------

  /** The event handed to the parent in place of an invalid choice: a nameless file event with no files. */
  const EmptyFileEvent: Target := Target(None, Some("file"), Undefined, false, Some([]), "")

  /** What the parent receives for a change. */
  function Forwarded(target: Target): (event: Target)
    requires target.files.Some?
    ensures FilesValid(target.files.value, target.accept) ==> event == target
    ensures !FilesValid(target.files.value, target.accept) ==> event.files == Some([]) && event.name.None?
  {
    if FilesValid(target.files.value, target.accept) then target else EmptyFileEvent
  }

  class FileField {
    const sizeText: nat -> string
    var filesInfo: string
    var isValid: bool
    var validity: string

    constructor(sizeText: nat -> string)
      ensures this.sizeText == sizeText
      ensures filesInfo == NoFiles && isValid && validity == ""
    {
      this.sizeText := sizeText;
      filesInfo, isValid, validity := NoFiles, true, "";
    }

    method HandleChange(target: Target) returns (forwarded: Target)
      requires target.files.Some?
      modifies this`filesInfo, this`isValid, this`validity
      ensures filesInfo == Label(target.files.value, sizeText)
      ensures isValid == FilesValid(target.files.value, target.accept)
      ensures validity == if isValid then "" else Unsupported
      ensures forwarded == Forwarded(target)
    {
      var files := target.files.value;
      var newFileLabel := BuildLabel(files, sizeText);
      filesInfo := if newFileLabel != "" then newFileLabel else NoFiles;
      var areFilesValid, message := ValidateFiles(files, target.accept);
      validity := message;
      if !areFilesValid {
        forwarded := EmptyFileEvent;
      } else {
        forwarded := target;
      }
      isValid := areFilesValid;
    }
  }
}
