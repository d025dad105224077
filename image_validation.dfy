/** Upload validation: the extension whitelist, the inclusive 10 MB size limit and
    the fixed order of the three guards of `process_upload`. An uploaded file is
    modelled by its name, its size in bytes and its current read position. */
module ImageValidation {
  import opened Common

  const MaxFileSizeMb: nat := 10
  /** Bytes in one megabyte as the size check counts them (`1024 * 1024`). */
  const BytesPerMb: nat := 1024 * 1024
  const AllowedExtensions: set<string> := {"png", "jpg", "jpeg", "gif"}

  /** Python's `str.lower()` on the ASCII letters; every other character is kept. */
  function LowerChar(ch: char): char
  {
    if 'A' <= ch <= 'Z' then (ch as int - 'A' as int + 'a' as int) as char else ch
  }

  function LowerAscii(s: string): (t: string)
    ensures |t| == |s|
    ensures forall i :: 0 <= i < |s| ==> t[i] == LowerChar(s[i])
  {
    seq(|s|, i requires 0 <= i < |s| => LowerChar(s[i]))
  }

  /** An extension is allowed when its lower-case form is one of the whitelist. */
  predicate AllowedExtension(ext: string)
  {
    LowerAscii(ext) in AllowedExtensions
  }

  /** `allowed_file`: the name holds a '.', and the text after the last '.' is an
      allowed extension. */
  function AllowedFile(filename: string): bool
  {
    '.' in filename && AllowedExtension(filename[RFind(filename, '.') + 1..])
  }

  /** Position `k` holds a '.' that no other '.' follows, and an allowed extension
      follows it. */
  predicate ExtensionAt(filename: string, k: int)
  {
    0 <= k < |filename| && filename[k] == '.' && '.' !in filename[k + 1..] &&
    AllowedExtension(filename[k + 1..])
  }

  /** A name is accepted exactly when it is some stem, a '.', and a dot-free extension
      whose lower-case form is allowed. */
  lemma AllowedFileIff(filename: string)
    ensures AllowedFile(filename) <==> exists k :: ExtensionAt(filename, k)
  {
    var r := RFind(filename, '.');
    if r >= 0 {
      NoDotAfterLast(filename, r);
      assert ExtensionAt(filename, r) == AllowedFile(filename);
    }
    forall k | ExtensionAt(filename, k) ensures k == r {
      LastDot(filename, k);
    }
  }

  /** Nothing after the last '.' is a '.'. */
  lemma NoDotAfterLast(s: string, r: int)
    requires r == RFind(s, '.') && r >= 0
    ensures '.' !in s[r + 1..]
  {
    var tail := s[r + 1..];
    assert forall t :: 0 <= t < |tail| ==> tail[t] == s[r + 1 + t];
  }

  /** A '.' followed by no other '.' is the last one. */
  lemma LastDot(s: string, k: int)
    requires 0 <= k < |s| && s[k] == '.' && '.' !in s[k + 1..]
    ensures RFind(s, '.') == k && '.' in s
  {
    var tail := s[k + 1..];
    assert forall j :: k < j < |s| ==> s[j] == tail[j - k - 1];
  }

  /** A name without a '.' is rejected. */
  lemma NoDotRejected(filename: string)
    requires '.' !in filename
    ensures !AllowedFile(filename)
  {
  }

  /** Lower-casing the whole name does not change the verdict. */
  lemma AllowedFileCaseInsensitive(filename: string)
    ensures AllowedFile(LowerAscii(filename)) == AllowedFile(filename)
  {
    var low := LowerAscii(filename);
    assert forall i :: 0 <= i < |filename| ==> (low[i] == '.' <==> filename[i] == '.');
    assert ('.' in low) == ('.' in filename) by {
      if '.' in filename {
        var i :| 0 <= i < |filename| && filename[i] == '.';
        assert low[i] == '.';
      }
      if '.' in low {
        var i :| 0 <= i < |low| && low[i] == '.';
        assert filename[i] == '.';
      }
    }
    if '.' in filename {
      var r, q := RFind(filename, '.'), RFind(low, '.');
      assert low[r] == '.';
      assert filename[q] == '.';
      assert r == q;
      var ext := filename[r + 1..];
      assert low[r + 1..] == LowerAscii(ext);
      assert LowerAscii(LowerAscii(ext)) == LowerAscii(ext);
    }
  }

  /** Typical names that are accepted, whatever the case of the extension. */
  lemma AllowedFileAccepts()
    ensures AllowedFile("a.JPG")
    ensures AllowedFile("photo.jpeg")
  {
    assert RFind("a.JPG", '.') == 1;
    assert "a.JPG"[2..] == "JPG";
    assert LowerAscii("JPG") == "jpg";
    assert RFind("photo.jpeg", '.') == 5;
    assert "photo.jpeg"[6..] == "jpeg";
    assert LowerAscii("jpeg") == "jpeg";
  }

  /** Typical names that are rejected: only the last extension counts, an empty
      extension is not allowed, and a bare extension without a '.' is not a name. */
  lemma AllowedFileRejects()
    ensures !AllowedFile("a.png.exe")
    ensures !AllowedFile("a.")
    ensures !AllowedFile("png")
  {
    assert "a.png.exe"[5] == '.' && "a.png.exe"[6] == 'e' && "a.png.exe"[7] == 'x' && "a.png.exe"[8] == 'e';
    assert RFind("a.png.exe", '.') == 5;
    assert "a.png.exe"[6..] == "exe";
    assert LowerAscii("exe") == "exe";
    assert RFind("a.", '.') == 1;
    assert "a."[2..] == "";
    assert LowerAscii("") == "";
    assert "png"[0] != '.' && "png"[1] != '.' && "png"[2] != '.';
  }

  /** `size_mb <= MAX_FILE_SIZE_MB` with `size_mb = size / (1024 * 1024)` in true
      division: the bound is inclusive at exactly 10 MB. */
  function SizeWithinLimit(bytes: nat): (ok: bool)
    ensures ok <==> bytes <= MaxFileSizeMb * BytesPerMb
  {
    (bytes as real) / (BytesPerMb as real) <= MaxFileSizeMb as real
  }

  /** An uploaded file: its name, the number of bytes in its stream, and the
      stream's current position. */
  class UploadFile {
    const filename: string
    const size: nat
    var position: nat

    constructor (filename: string, size: nat)
      ensures this.filename == filename && this.size == size && position == 0
    {
      this.filename := filename;
      this.size := size;
      position := 0;
    }

    /** `validate_image_size`: seek to the end, read the size from the position, seek
        back to the start. Passes exactly when the size is at most 10 MB. */
    method ValidateImageSize() returns (ok: bool)
      modifies this
      ensures ok <==> size <= MaxFileSizeMb * BytesPerMb
      ensures ok == SizeWithinLimit(size)
      ensures position == 0
    {
      position := size;
      var told := position;
      position := 0;
      ok := SizeWithinLimit(told);
    }
  }

  datatype UploadError = NoFile | TypeNotAllowed | SizeExceeded

  /** The message each rejection raises `ValueError` with. */
  function Message(e: UploadError): (m: string)
    ensures |m| > 0
  {
    match e
    case NoFile => "No file provided"
    case TypeNotAllowed => "File type not allowed. Supported types: png, jpg, jpeg, gif"
    case SizeExceeded => "File size exceeds 10MB limit"
  }

  /** The three messages differ, so the text of the `ValueError` tells which guard
      failed. */
  lemma MessageIdentifiesGuard(e1: UploadError, e2: UploadError)
    ensures Message(e1) == Message(e2) <==> e1 == e2
  {
    if e1 != e2 {
      assert |Message(e1)| != |Message(e2)|;
    }
  }

  /** The outcome of `process_upload`'s three guards, in their order: a missing file
      (no object, or an empty name), then the extension, then the size. */
  function UploadVerdict(present: bool, filename: string, size: nat): (e: Option<UploadError>)
    ensures e == Some(NoFile) <==> !present
    ensures e == Some(TypeNotAllowed) <==> present && !AllowedFile(filename)
    ensures e == Some(SizeExceeded) <==> present && AllowedFile(filename) && size > MaxFileSizeMb * BytesPerMb
    ensures e == None <==> present && AllowedFile(filename) && size <= MaxFileSizeMb * BytesPerMb
  {
    if !present then Some(NoFile)
    else if !AllowedFile(filename) then Some(TypeNotAllowed)
    else if !SizeWithinLimit(size) then Some(SizeExceeded)
    else None
  }

  /** `not file` for an uploaded file: no file at all, or one sent without a name. */
  predicate Present(file: UploadFile?)
    reads file
  {
    file != null && file.filename != ""
  }

  /** `process_upload`: the guards in order, then the (opened) file. The size check,
      and with it the rewind to position 0, only runs once the first two guards pass. */
  method ProcessUpload(file: UploadFile?) returns (r: Result<UploadFile, string>)
    modifies file
    ensures var v := UploadVerdict(Present(file), if file == null then "" else file.filename,
                                   if file == null then 0 else file.size);
      (v == None ==> r == Ok(file)) && (v.Some? ==> r == Err(Message(v.value)))
    ensures file != null && Present(file) && AllowedFile(file.filename) ==> file.position == 0
    ensures file != null && !(Present(file) && AllowedFile(file.filename)) ==>
      file.position == old(file.position)
  {
    if file == null || file.filename == "" {
      return Err(Message(NoFile));
    }
    if !AllowedFile(file.filename) {
      return Err(Message(TypeNotAllowed));
    }
    var ok := file.ValidateImageSize();
    if !ok {
      return Err(Message(SizeExceeded));
    }
    return Ok(file);
  }
}
