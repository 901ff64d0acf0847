/** Upload file-name and content checks: extension extraction, the allow-list, the stored
    name and the magic-byte signatures. */
module FileUtils {

  import opened Wrappers
  import opened Strings

  /** `ALLOWED_EXTENSIONS` of the application configuration. */
  const AllowedExtensions: set<string> := {"pdf", "jpg", "jpeg", "png"}

  /** `filename.rsplit('.', 1)[1]`: the text after the last '.'. */
  function AfterLastDot(filename: string): (r: string)
    requires '.' in filename
    ensures '.' !in r
  {
    var k := LastIndexOf(filename, '.');
    assert k >= 0;
    filename[k + 1..]
  }

  /** `get_file_extension`. */
  function GetFileExtension(filename: string): (ext: string)
    ensures '.' !in ext
    ensures '.' !in filename ==> ext == ""
  {
    if '.' in filename then Lower(AfterLastDot(filename)) else ""
  }

  /** Whatever precedes it, the extension is the lower-cased text after the final '.'. */
  lemma ExtensionIsAfterLastDot(stem: string, raw: string)
    requires '.' !in raw
    ensures GetFileExtension(stem + "." + raw) == Lower(raw)
  {
    var s := stem + "." + raw;
    var k := LastIndexOf(s, '.');
    assert s[|stem|] == '.';
    forall j | |stem| < j < |s| ensures s[j] != '.' {
      assert s[j] == raw[j - |stem| - 1];
    }
    assert k == |stem|;
    assert s[k + 1..] == raw;
  }

  /** `allowed_file`. The allow-list test is a test of the extension; a name without '.'
      never passes. */
  function AllowedFile(filename: string): (ok: bool)
    ensures ok <==> GetFileExtension(filename) in AllowedExtensions
    ensures ok ==> '.' in filename && GetFileExtension(filename) != ""
  {
    '.' in filename && Lower(AfterLastDot(filename)) in AllowedExtensions
  }

  /** The 32 lower-case hexadecimal digits of `uuid.uuid4().hex`. */
  predicate IsUuidHex(hex: string) {
    |hex| == 32 && forall i :: 0 <= i < |hex| ==> ('0' <= hex[i] <= '9' || 'a' <= hex[i] <= 'f')
  }

  /** `generate_stored_name`, with the random UUID given as `hex`. */
  function GenerateStoredName(filename: string, hex: string): (stored: string)
    requires IsUuidHex(hex)
    ensures GetFileExtension(filename) != "" ==> GetFileExtension(stored) == GetFileExtension(filename)
    ensures GetFileExtension(filename) == "" ==> '.' !in stored && stored == hex
    ensures StartsWith(stored, hex)
  {
    var ext := GetFileExtension(filename);
    if ext != "" then
      assert '.' in filename;
      ExtensionIsAfterLastDot(hex, ext);
      LowerIdempotent(AfterLastDot(filename));
      hex + "." + ext
    else
      assert forall i :: 0 <= i < |hex| ==> hex[i] != '.';
      hex
  }

  type Byte = b: int | 0 <= b < 256

  /** `FILE_SIGNATURES`. */
  const FileSignatures: map<string, seq<seq<Byte>>> := map[
    "pdf" := [[0x25, 0x50, 0x44, 0x46]],
    "jpg" := [[0xFF, 0xD8, 0xFF]],
    "jpeg" := [[0xFF, 0xD8, 0xFF]],
    "png" := [[0x89, 0x50, 0x4E, 0x47, 0x0D, 0x0A, 0x1A, 0x0A]]]

  /** `FILE_SIGNATURES.get(extension.lower(), [])`. */
  function SignaturesFor(extension: string): seq<seq<Byte>> {
    if Lower(extension) in FileSignatures then FileSignatures[Lower(extension)] else []
  }

  /** Signatures exist for exactly the extensions the upload allow-list admits. */
  lemma SignaturesExactlyForAllowed(extension: string)
    ensures SignaturesFor(extension) != [] <==> Lower(extension) in AllowedExtensions
  {
  }

  /** `max(len(sig) for sig in signatures)`. */
  function MaxLength(sigs: seq<seq<Byte>>): (m: nat)
    requires sigs != []
    ensures forall i :: 0 <= i < |sigs| ==> |sigs[i]| <= m
    ensures exists i :: 0 <= i < |sigs| && |sigs[i]| == m
  {
    if |sigs| == 1 then |sigs[0]|
    else
      var rest := MaxLength(sigs[1..]);
      assert forall i :: 1 <= i < |sigs| ==> sigs[i] == sigs[1..][i - 1];
      if |sigs[0]| >= rest then |sigs[0]| else rest
  }

  /** `any(header.startswith(sig) for sig in signatures)`. */
  predicate HeaderMatches(header: seq<Byte>, sigs: seq<seq<Byte>>) {
    exists i :: 0 <= i < |sigs| && StartsWith(header, sigs[i])
  }

  /** The verdict of `validate_file_content` on a stream whose unread bytes are `content`. */
  predicate ContentMatches(content: seq<Byte>, extension: string) {
    SignaturesFor(extension) != [] && HeaderMatches(content, SignaturesFor(extension))
  }

  /** Reading only the first `n` bytes, where `n` is at least the longest signature,
      decides the match exactly as the whole content would. */
  lemma {:induction false} PrefixDecides(content: seq<Byte>, sigs: seq<seq<Byte>>, n: nat)
    requires forall i :: 0 <= i < |sigs| ==> |sigs[i]| <= n
    ensures HeaderMatches(content[..if n <= |content| then n else |content|], sigs) == HeaderMatches(content, sigs)
  {
    var header := content[..if n <= |content| then n else |content|];
    forall i | 0 <= i < |sigs|
      ensures StartsWith(header, sigs[i]) == StartsWith(content, sigs[i])
    {
      if |sigs[i]| <= |header| {
        assert header[..|sigs[i]|] == content[..|sigs[i]|];
      }
    }
  }

  lemma HeaderMatchesOne(content: seq<Byte>, sig: seq<Byte>)
    ensures HeaderMatches(content, [sig]) <==> StartsWith(content, sig)
  {
    if StartsWith(content, sig) {
      assert StartsWith(content, [sig][0]);
    }
  }

  /** The concrete signatures: a PDF starts with "%PDF", a JPEG with FF D8 FF, a PNG with the
      eight-byte PNG signature; the extension's case does not matter. */
  lemma SignatureTable(content: seq<Byte>, extension: string)
    ensures Lower(extension) == "pdf" ==> (ContentMatches(content, extension) <==> StartsWith(content, [0x25, 0x50, 0x44, 0x46]))
    ensures Lower(extension) in {"jpg", "jpeg"} ==> (ContentMatches(content, extension) <==> StartsWith(content, [0xFF, 0xD8, 0xFF]))
    ensures Lower(extension) == "png" ==> (ContentMatches(content, extension) <==> StartsWith(content, [0x89, 0x50, 0x4E, 0x47, 0x0D, 0x0A, 0x1A, 0x0A]))
    ensures Lower(extension) !in AllowedExtensions ==> !ContentMatches(content, extension)
  {
    var e := Lower(extension);
    if e in FileSignatures {
      HeaderMatchesOne(content, FileSignatures[e][0]);
    }
  }

  /** The uploaded file's byte stream with its read position. */
  class Stream {
    var data: seq<Byte>
    var pos: nat

    ghost predicate Valid()
      reads this
    {
      pos <= |data|
    }

    constructor (content: seq<Byte>)
      ensures Valid() && data == content && pos == 0
    {
      data := content;
      pos := 0;
    }

    /** `read(n)`: up to `n` bytes from the current position. */
    method Read(n: nat) returns (chunk: seq<Byte>)
      requires Valid()
      modifies this`pos
      ensures Valid()
      ensures chunk == old(data[pos..if pos + n <= |data| then pos + n else |data|])
      ensures pos == old(pos) + |chunk|
    {
      var end := if pos + n <= |data| then pos + n else |data|;
      chunk := data[pos..end];
      pos := end;
    }

    /** `seek(p)`. */
    method Seek(p: nat)
      requires p <= |data|
      modifies this`pos
      ensures Valid() && pos == p
    {
      pos := p;
    }
  }

  /** `validate_file_content`: true iff the unread content starts with one of the extension's
      signatures. At most the longest signature's length is read; the stream is rewound to 0
      afterwards, except for an extension without signatures, which returns at once. */
  method ValidateFileContent(file: Stream, extension: string) returns (ok: bool, ghost header: seq<Byte>)
    requires file.Valid()
    modifies file`pos
    ensures file.Valid()
    ensures ok == ContentMatches(old(file.data[file.pos..]), extension)
    ensures SignaturesFor(extension) == [] ==> !ok && file.pos == old(file.pos) && header == []
    ensures SignaturesFor(extension) != [] ==>
              file.pos == 0 && |header| <= MaxLength(SignaturesFor(extension))
              && StartsWith(old(file.data[file.pos..]), header)
  {
    var signatures := SignaturesFor(extension);
    if signatures == [] {
      return false, [];
    }
    var maxLen := MaxLength(signatures);
    ghost var content := file.data[file.pos..];
    var chunk := file.Read(maxLen);
    header := chunk;
    file.Seek(0);
    PrefixDecides(content, signatures, maxLen);
    assert chunk == content[..if maxLen <= |content| then maxLen else |content|];
    ok := exists i :: 0 <= i < |signatures| && StartsWith(chunk, signatures[i]);
  }
}
