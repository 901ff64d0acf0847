/** The upload page: choosing a file (by drop or by the file input), the checks on it, and
    the two requests of a submission (upload, then validate) with the page's flags. Each
    handler's awaited replies are parameters. */
module UploadPage {

  import opened Wrappers
  import opened Strings
  import opened Validators
  import UseApi

  /** What the upload request gives back: the new document's id, or a rejection. */
  datatype UploadReply = Uploaded(documentId: nat) | UploadFailed(failure: UseApi.Failure)

  const UploadFailedMessage := "Upload failed"

  /** `Math.round(loaded * 100 / total)`: the whole percentage nearest to the exact one, a
      half rounding up. */
  function Percent(loaded: nat, total: nat): (p: int)
    requires 0 < total && loaded <= total
    ensures 0 <= p <= 100
    ensures (p as real) - 0.5 <= (100 * loaded) as real / total as real < (p as real) + 0.5
  {
    var p := (200 * loaded + total) / (2 * total);
    assert 2 * total * p <= 200 * loaded + total < 2 * total * (p + 1);
    PercentBounds(loaded, total, p);
    p
  }

  /** The real-number reading of the integer bounds behind `Percent`. */
  lemma PercentBounds(loaded: nat, total: nat, p: int)
    requires 0 < total && loaded <= total
    requires 2 * total * p <= 200 * loaded + total < 2 * total * (p + 1)
    ensures 0 <= p <= 100
    ensures (p as real) - 0.5 <= (100 * loaded) as real / total as real < (p as real) + 0.5
  {
    assert 0 <= p by {
      if p < 0 { MulMonotone(2 * total, p, -1); }
    }
    assert p <= 100 by {
      if p > 100 { MulMonotone(2 * total, 101, p); }
    }
    var t := total as real;
    var n := (100 * loaded) as real;
    var q := p as real;
    IntProductAsReal(2 * total, p);
    IntProductAsReal(2 * total, p + 1);
    assert 2.0 * t * q <= 2.0 * n + t;
    assert 2.0 * n + t < 2.0 * t * (q + 1.0);
    DivBetween(q - 0.5, q + 0.5, n, t);
  }

  lemma MulMonotone(k: nat, a: int, b: int)
    requires a <= b
    ensures k * a <= k * b
  {
  }

  lemma IntProductAsReal(a: int, b: int)
    ensures (a * b) as real == a as real * b as real
  {
  }

  /** Dividing by a positive number keeps bounds that hold after multiplying by it. */
  lemma DivBetween(lo: real, hi: real, n: real, t: real)
    requires 0.0 < t && lo * t <= n < hi * t
    ensures lo <= n / t < hi
  {
    var x := n / t;
    assert x * t == n;
  }

  /** The first and the last progress events read 0 and 100. */
  lemma PercentEnds(total: nat)
    requires 0 < total
    ensures Percent(0, total) == 0 && Percent(total, total) == 100
  {
    var p0 := Percent(0, total);
    assert (p0 as real) - 0.5 <= 0.0 / total as real < (p0 as real) + 0.5;
    var p1 := Percent(total, total);
    IntProductAsReal(100, total);
    DivBetween(100.0, 100.0 + 0.5, 100.0 * total as real, total as real);
  }

  class UploadPage {
    var file: Option<FileInfo>
    var dragActive: bool
    var uploading: bool
    var validating: bool
    var progress: int
    var error: string
    /** The document id the handler keeps between its two requests. */
    var documentId: Option<nat>
    var navigatedTo: Option<string>

    /** The page never uploads and validates at once, and the progress is a percentage. */
    ghost predicate Valid()
      reads this
    {
      && !(uploading && validating)
      && 0 <= progress <= 100
      && (validating ==> documentId.Some?)
    }

    /** `disabled={!file || uploading || validating}`. */
    predicate SubmitDisabled()
      reads this
    {
      file.None? || uploading || validating
    }

    constructor ()
      ensures Valid()
      ensures file == None && !dragActive && !uploading && !validating && progress == 0
      ensures error == "" && documentId == None && navigatedTo == None
    {
      file := None;
      dragActive := false;
      uploading := false;
      validating := false;
      progress := 0;
      error := "";
      documentId := None;
      navigatedTo := None;
    }

    /** `handleDrag`: entering or hovering lights the drop zone, leaving dims it, other
        events leave it. */
    method Drag(eventType: string)
      modifies this`dragActive
      ensures eventType == "dragenter" || eventType == "dragover" ==> dragActive
      ensures eventType == "dragleave" ==> !dragActive
      ensures eventType !in {"dragenter", "dragover", "dragleave"} ==> dragActive == old(dragActive)
    {
      if eventType == "dragenter" || eventType == "dragover" {
        dragActive := true;
      } else if eventType == "dragleave" {
        dragActive := false;
      }
    }

    /** `handleFileInput`: the error is cleared; a file that passes the checks becomes the
        chosen one, a file that fails them leaves the previous choice and shows why. */
    method FileInput(picked: Option<FileInfo>)
      requires Valid()
      modifies this`file, this`error
      ensures Valid()
      ensures picked.None? ==> file == old(file) && error == ""
      ensures picked.Some? && ValidateFile(picked.value).None? ==> file == picked && error == ""
      ensures picked.Some? && ValidateFile(picked.value).Some? ==>
                file == old(file) && error == ValidateFile(picked.value).value
    {
      error := "";
      if picked.Some? {
        var problem := ValidateFile(picked.value);
        if problem.Some? {
          error := problem.value;
        } else {
          file := picked;
        }
      }
    }

    /** `handleDrop`: the drop zone dims, then the dropped file is handled like a selected one. */
    method Drop(picked: Option<FileInfo>)
      requires Valid()
      modifies this`dragActive, this`file, this`error
      ensures Valid() && !dragActive
      ensures picked.None? ==> file == old(file) && error == ""
      ensures picked.Some? && ValidateFile(picked.value).None? ==> file == picked && error == ""
      ensures picked.Some? && ValidateFile(picked.value).Some? ==>
                file == old(file) && error == ValidateFile(picked.value).value
    {
      dragActive := false;
      FileInput(picked);
    }

    /** The "Remove file" button, shown only while a file is chosen: the choice is dropped. */
    method RemoveFile()
      requires Valid() && file.Some?
      modifies this`file
      ensures Valid() && file == None && SubmitDisabled()
    {
      file := None;
    }

    /** The start of `handleUploadAndValidate`: nothing happens without a file. The button
        is disabled while a submission runs, so one never starts on top of another. */
    method StartSubmit() returns (started: bool)
      requires Valid() && !uploading && !validating
      modifies this`error, this`uploading, this`progress
      ensures Valid()
      ensures started <==> file.Some?
      ensures !started ==> error == old(error) && !uploading && progress == old(progress)
      ensures started ==> error == "" && uploading && progress == 0
    {
      started := file.Some?;
      if started {
        error := "";
        uploading := true;
        progress := 0;
      }
    }

    /** `onUploadProgress`. */
    method Progress(loaded: nat, total: nat)
      requires Valid() && uploading && 0 < total && loaded <= total
      modifies this`progress
      ensures Valid() && progress == Percent(loaded, total)
    {
      progress := Percent(loaded, total);
    }

    /** The upload settles: with a document id the page switches from uploading to
        validating; a rejection shows the envelope's message or the fallback and clears
        both flags. The chosen file is kept. */
    method UploadSettled(reply: UploadReply)
      requires Valid() && uploading
      modifies this`uploading, this`validating, this`error, this`documentId
      ensures Valid() && !uploading
      ensures reply.Uploaded? ==> validating && documentId == Some(reply.documentId) && error == old(error)
      ensures reply.UploadFailed? ==>
                !validating && error == UseApi.EnvelopeOr(reply.failure, UploadFailedMessage) && error != ""
    {
      match reply
      case Uploaded(id) =>
        documentId := Some(id);
        uploading := false;
        validating := true;
      case UploadFailed(f) =>
        error := UseApi.EnvelopeOr(f, UploadFailedMessage);
        uploading := false;
        validating := false;
    }

    /** The validate request for the kept document id. */
    function ValidateUrl(): (url: string)
      requires Valid() && validating
      reads this
      ensures StartsWith(url, "/validate/")
    {
      "/validate/" + NatToString(documentId.value)
    }

    /** The validation settles: success goes to the document's result page; a rejection is
        handled as for the upload. */
    method ValidateSettled(reply: UseApi.Reply)
      requires Valid() && validating
      modifies this`uploading, this`validating, this`error, this`navigatedTo
      ensures Valid()
      ensures reply.Answered? ==>
                && navigatedTo == Some("/results/" + NatToString(documentId.value))
                && uploading == old(uploading) && validating && error == old(error)
      ensures reply.Failed? ==>
                && !uploading && !validating && navigatedTo == old(navigatedTo)
                && error == UseApi.EnvelopeOr(reply.failure, UploadFailedMessage)
    {
      match reply
      case Answered(_) =>
        navigatedTo := Some("/results/" + NatToString(documentId.value));
      case Failed(f) =>
        error := UseApi.EnvelopeOr(f, UploadFailedMessage);
        uploading := false;
        validating := false;
    }
  }

  /** The page's own file check agrees with the shared `validateFile`: same order, same
      messages, and it accepts exactly the four types up to 16 MiB. */
  lemma PageCheckAcceptsExactly(f: FileInfo)
    ensures ValidateFile(f).None? <==> f.mimeType in {"application/pdf", "image/jpeg", "image/jpg", "image/png"} && f.size <= 16 * 1024 * 1024
  {
  }
}
