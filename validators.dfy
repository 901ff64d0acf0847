/** The front end's input checks: the file type and size accepted before an upload, the email
    shape, and the unit a file size is shown in. */
module Validators {

  import opened Wrappers
  import opened Strings

  /** What the browser's `File` object tells the checks: its MIME type and its size in bytes. */
  datatype FileInfo = FileInfo(name: string, mimeType: string, size: nat)

  const AllowedFileTypes: seq<string> := ["application/pdf", "image/jpeg", "image/jpg", "image/png"]
  const MaxFileSize: nat := 16 * 1024 * 1024

  const TypeMessage := "Invalid file type. Allowed: PDF, JPG, PNG"
  const SizeMessage := "File too large. Maximum size: 16MB"

  /** `isValidFileType`: exact membership in the list, no case folding. */
  function IsValidFileType(f: FileInfo): (ok: bool)
    ensures ok <==> f.mimeType in {"application/pdf", "image/jpeg", "image/jpg", "image/png"}
  {
    f.mimeType in AllowedFileTypes
  }

  /** `isValidFileSize`: the limit itself is accepted. */
  function IsValidFileSize(f: FileInfo): (ok: bool)
    ensures ok <==> f.size <= 16_777_216
    ensures ok <==> !FormatFileSize(f.size).Megabytes? || FormatFileSize(f.size).amount <= 16.0
  {
    var shown := FormatFileSize(f.size);
    assert shown.Megabytes? ==> (shown.amount <= 16.0 <==> shown.amount * (1024.0 * 1024.0) <= 16.0 * (1024.0 * 1024.0));
    f.size <= MaxFileSize
  }

  /** `validateFile`: the type message, else the size message, else no message. */
  function ValidateFile(f: FileInfo): (r: Option<string>)
    ensures r.None? <==> IsValidFileType(f) && IsValidFileSize(f)
    ensures !IsValidFileType(f) ==> r == Some(TypeMessage)
    ensures IsValidFileType(f) && !IsValidFileSize(f) ==> r == Some(SizeMessage)
  {
    if !IsValidFileType(f) then Some(TypeMessage)
    else if !IsValidFileSize(f) then Some(SizeMessage)
    else None
  }

  /** The boundary: exactly 16 MiB passes and one byte more does not. */
  lemma SizeLimitInclusive(name: string)
    ensures ValidateFile(FileInfo(name, "application/pdf", MaxFileSize)) == None
    ensures ValidateFile(FileInfo(name, "application/pdf", MaxFileSize + 1)) == Some(SizeMessage)
  {
  }

  /** A file wrong in both respects is reported for its type. */
  lemma TypeReportedFirst(f: FileInfo)
    requires !IsValidFileType(f) && !IsValidFileSize(f)
    ensures ValidateFile(f) == Some(TypeMessage)
  {
  }

  // ---------------------------------------------------------------- email

  /** JavaScript's `\s`: the ASCII whitespace, the Unicode space separators, the line and
      paragraph separators and the byte-order mark. */
  predicate IsJsSpace(c: char) {
    || c == ' ' || c == '\t' || c == '\n' || c == '\r' || c == '\U{000B}' || c == '\U{000C}'
    || c == '\U{00A0}' || c == '\U{1680}' || ('\U{2000}' <= c <= '\U{200A}')
    || c == '\U{2028}' || c == '\U{2029}' || c == '\U{202F}' || c == '\U{205F}' || c == '\U{3000}'
    || c == '\U{FEFF}'
  }

  /** `[^\s@]`. */
  predicate EmailChar(c: char) {
    !IsJsSpace(c) && c != '@'
  }

  /** What `/^[^\s@]+@[^\s@]+\.[^\s@]+$/` matches: one '@' after a non-empty part, a '.' with
      at least one character on each side somewhere after it, and no whitespace anywhere. */
  ghost predicate EmailRegex(s: string) {
    exists a, d ::
      && 0 < a && a + 1 < d < |s| - 1 && s[a] == '@' && s[d] == '.'
      && forall i :: 0 <= i < |s| && i != a ==> EmailChar(s[i])
  }

  /** `isValidEmail`, computed by locating the '@' and then looking for a '.' between the
      second character after it and the last character. */
  function IsValidEmail(s: string): (ok: bool)
    ensures ok ==> 5 <= |s| && EmailChar(s[0]) && EmailChar(s[|s| - 1])
    ensures ok ==> forall i :: 0 <= i < |s| ==> !IsJsSpace(s[i])
  {
    var a := IndexOf(s, '@');
    && 0 < a && a + 3 < |s|
    && (forall i :: 0 <= i < |s| && i != a ==> EmailChar(s[i]))
    && IndexOf(s[a + 2..|s| - 1], '.') >= 0
  }

  /** The computation accepts exactly what the regular expression matches. */
  lemma IsValidEmailIsRegex(s: string)
    ensures IsValidEmail(s) <==> EmailRegex(s)
  {
    var a := IndexOf(s, '@');
    if IsValidEmail(s) {
      var d := a + 2 + IndexOf(s[a + 2..|s| - 1], '.');
      assert s[d] == '.';
    }
    if EmailRegex(s) {
      var a', d :| && 0 < a' && a' + 1 < d < |s| - 1 && s[a'] == '@' && s[d] == '.'
                   && forall i :: 0 <= i < |s| && i != a' ==> EmailChar(s[i]);
      assert a == a' by {
        assert a >= 0 && a <= a';
        if a < a' { assert false; }
      }
      var t := s[a + 2..|s| - 1];
      assert t[d - (a + 2)] == '.';
    }
  }

  /** Whitespace anywhere is refused, whatever the rest of the address. */
  lemma EmailWithSpaceRejected(s: string, i: int)
    requires 0 <= i < |s| && IsJsSpace(s[i])
    ensures !IsValidEmail(s)
  {
  }

  /** A second '@' anywhere is refused. */
  lemma EmailWithTwoAtsRejected(s: string, i: int, j: int)
    requires 0 <= i < j < |s| && s[i] == '@' && s[j] == '@'
    ensures !IsValidEmail(s)
  {
    var a := IndexOf(s, '@');
    assert 0 <= a <= i;
    assert j != a;
  }

  /** The '.' may be any inner one of the domain: a trailing dot does not spoil it. */
  lemma EmailInnerDotAccepted()
    ensures IsValidEmail("a@b.c.")
  {
    assert IndexOf("a@b.c.", '@') == 1;
    assert "a@b.c."[3..5] == ".c";
  }

  // ---------------------------------------------------------------- sizes

  /** The unit `formatFileSize` picks and the number it shows in it. `toFixed(1)` is not part
      of this model, so kilobytes and megabytes carry the exact quotient. */
  datatype ShownSize = Bytes(text: string) | Kilobytes(amount: real) | Megabytes(amount: real)

  function FormatFileSize(bytes: nat): (r: ShownSize)
    ensures r.Bytes? <==> bytes < 1024
    ensures r.Kilobytes? <==> 1024 <= bytes < 1024 * 1024
    ensures r.Megabytes? <==> 1024 * 1024 <= bytes
    ensures r.Bytes? ==> r.text == NatToString(bytes) + " B"
    ensures r.Kilobytes? ==> 1.0 <= r.amount < 1024.0 && r.amount * 1024.0 == bytes as real
    ensures r.Megabytes? ==> 1.0 <= r.amount && r.amount * (1024.0 * 1024.0) == bytes as real
  {
    if bytes < 1024 then Bytes(NatToString(bytes) + " B")
    else if bytes < 1024 * 1024 then Kilobytes(bytes as real / 1024.0)
    else Megabytes(bytes as real / (1024.0 * 1024.0))
  }

  /** A larger size never shows in a smaller unit. */
  lemma FormatFileSizeUnitMonotone(m: nat, n: nat)
    requires m <= n
    ensures FormatFileSize(n).Bytes? ==> FormatFileSize(m).Bytes?
    ensures FormatFileSize(m).Megabytes? ==> FormatFileSize(n).Megabytes?
  {
  }
}
