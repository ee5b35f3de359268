/**
 * The two `/msapi/textfile` handlers of `main.py` over the table
 * `dm.dm_textfile`. The object's fields are the database table and two
 * counters of what the handlers did to the outside world: connection
 * attempts (`engine.connect()`) and 0.2 s sleeps between attempts. The
 * authorizer, the per-attempt database faults and the JSON/YAML parsers are
 * parameters.
 */
module Service {
  import opened Wrappers
  import opened TextFileTable
  import Bytes
  import Base64
  import Utf8
  import opened MimeType
  import opened Validation
  import opened Auth
  import opened Retry

  /** What a 500 reports: the exception that reached the outer `except Exception`. */
  datatype Cause =
    | StorageFailure(message: string)      // a database exception raised out of the retry loop
    | Base64Failure(b64: Base64.Error)     // `base64.b64decode` raised
    | Utf8Failure(utf8: Utf8.Error)        // `.decode("utf-8")` raised

  datatype Response =
    | Document(content: string, mediaType: string)  // 200 with the reconstructed file
    | Message(detail: string)                       // 200 `{"detail": ...}`
    | Unauthorized(detail: string)                  // 401
    | Unprocessable                                 // 422 from the framework's validation
    | ServerError(cause: Cause)                     // 500

  const UpdatedDetail := "components updated succesfully"

  /** `"".join(file)`. */
  function Concat(parts: seq<string>): (s: string)
    decreases |parts|
  {
    if parts == [] then "" else parts[0] + Concat(parts[1..])
  }

  /**
   * Join the lines, base64-decode, then decode as UTF-8. A text comes back
   * exactly when the joined lines base64-decode to that text's UTF-8
   * encoding; otherwise the error names the step that failed.
   */
  function Reconstruct(lines: seq<string>): (r: Result<string, Cause>)
    ensures r.Ok? ==> Base64.Decode(Concat(lines)) == Ok(Utf8.Encode(r.value))
    ensures forall t {:trigger Utf8.Encode(t)} :: Base64.Decode(Concat(lines)) == Ok(Utf8.Encode(t)) ==> r == Ok(t)
    ensures r.Err? ==> r.error.Base64Failure? || r.error.Utf8Failure?
    ensures r.Err? && r.error.Base64Failure? ==> Base64.Decode(Concat(lines)) == Err(r.error.b64)
    ensures r.Err? && r.error.Utf8Failure? ==>
              && Base64.Decode(Concat(lines)).Ok?
              && forall t {:trigger Utf8.Encode(t)} :: Base64.Decode(Concat(lines)).value != Utf8.Encode(t)
  {
    match Base64.Decode(Concat(lines))
    case Err(e) => Err(Base64Failure(e))
    case Ok(bytes) =>
      Utf8.DecodeExactlyEncoded(bytes);
      match Utf8.Decode(bytes)
      case Err(e) => Err(Utf8Failure(e))
      case Ok(text) => Ok(text)
  }

  /**
   * The read path's answer once the SELECT has committed: the document with
   * the media type of its own text whenever the lines decode, and otherwise
   * a 500 naming the decoding failure, never a storage failure.
   */
  function Render(filetype: string, lines: seq<string>,
                  parsesAsJson: string -> bool, parsesAsYaml: string -> bool): (r: Response)
    ensures r.Document? || (r.ServerError? && !r.cause.StorageFailure?)
    ensures r.Document? ==> && Base64.Decode(Concat(lines)) == Ok(Utf8.Encode(r.content))
                            && r.mediaType == GetMimetype(filetype, r.content, parsesAsJson, parsesAsYaml)
    ensures forall t {:trigger Utf8.Encode(t)} :: Base64.Decode(Concat(lines)) == Ok(Utf8.Encode(t)) ==>
              r == Document(t, GetMimetype(filetype, t, parsesAsJson, parsesAsYaml))
    ensures r.ServerError? ==> Reconstruct(lines) == Err(r.cause)
  {
    match Reconstruct(lines)
    case Ok(text) => Document(text, GetMimetype(filetype, text, parsesAsJson, parsesAsYaml))
    case Err(cause) => ServerError(cause)
  }

  /**
   * A client that base64-encodes the UTF-8 bytes of a document and splits
   * the result into lines anywhere gets the document back from a read.
   */
  lemma ReconstructEncoded(lines: seq<string>, doc: string)
    requires Concat(lines) == Base64.Encode(Utf8.Encode(doc))
    ensures Reconstruct(lines) == Ok(doc)
  {
    Base64.DecodeEncode(Utf8.Encode(doc));
    Utf8.DecodeIffEncoded(Utf8.Encode(doc), doc);
  }

  /** Joining lines that are the encodings of `frags`, followed by any further lines. */
  lemma {:induction false} ConcatEncodedPrefix(lines: seq<string>, frags: seq<seq<Bytes.byte>>)
    requires |frags| <= |lines|
    requires forall i :: 0 <= i < |frags| ==> lines[i] == Base64.Encode(frags[i])
    ensures Concat(lines) == Base64.JoinEncoded(frags) + Concat(lines[|frags|..])
    decreases |frags|
  {
    if frags == [] {
      assert lines[0..] == lines;
    } else {
      ConcatEncodedPrefix(lines[1..], frags[1..]);
      assert lines[1..][|frags| - 1..] == lines[|frags|..];
    }
  }

  /**
   * A client that base64-encodes each line on its own pads every line whose
   * byte count is not a multiple of three. A read then returns the text of
   * the lines up to and including the first padded one, wherever it sits,
   * and silently drops every line stored after it.
   */
  lemma ReconstructStopsAtPaddedLine(lines: seq<string>, frags: seq<seq<Bytes.byte>>, doc: string)
    requires 1 <= |frags| <= |lines|
    requires forall i :: 0 <= i < |frags| ==> lines[i] == Base64.Encode(frags[i])
    requires forall i :: 0 <= i < |frags| - 1 ==> |frags[i]| % 3 == 0
    requires |frags[|frags| - 1]| % 3 != 0
    requires Base64.AllAscii(Concat(lines[|frags|..]))
    requires Base64.Flatten(frags) == Utf8.Encode(doc)
    ensures Reconstruct(lines) == Ok(doc)
  {
    ConcatEncodedPrefix(lines, frags);
    Base64.DecodeStopsAfterPadding(frags, Concat(lines[|frags|..]));
    Utf8.DecodeIffEncoded(Utf8.Encode(doc), doc);
  }

  /**
   * Write, then read: the file comes back as the document the client
   * encoded, with the media type the classifier gives that document.
   */
  lemma WriteThenReadDocument(table: seq<Row>, compid: int, filetype: string, lines: seq<string>, doc: string,
                              parsesAsJson: string -> bool, parsesAsYaml: string -> bool)
    requires Concat(lines) == Base64.Encode(Utf8.Encode(doc))
    ensures Render(filetype, Base64Column(Select(Replace(table, compid, filetype, lines), compid, filetype)),
                   parsesAsJson, parsesAsYaml)
         == Document(doc, GetMimetype(filetype, doc, parsesAsJson, parsesAsYaml))
  {
    ReadAfterWrite(table, compid, filetype, lines);
    ReconstructEncoded(lines, doc);
  }

  /**
   * A file that was never written, or was cleared, reads as an empty
   * document with status 200, not as an error; its media type is whatever
   * the classifier makes of the empty text.
   */
  lemma ReadOfUnwrittenFile(table: seq<Row>, compid: int, filetype: string,
                            parsesAsJson: string -> bool, parsesAsYaml: string -> bool)
    requires forall r :: r in table ==> !OfFile(r, compid, filetype)
    ensures Render(filetype, Base64Column(Select(table, compid, filetype)), parsesAsJson, parsesAsYaml)
         == Document("", GetMimetype(filetype, "", parsesAsJson, parsesAsYaml))
  {
    RowsOfAbsent(table, compid, filetype);
    assert Base64.Decode("") == Ok([]);
    assert Utf8.Decode([]) == Ok("");
  }

  class TextFileService {
    /** The rows of `dm.dm_textfile`. */
    var table: seq<Row>
    /** Calls to `engine.connect()` made so far, one per storage attempt, whether or not it succeeded. */
    var connectAttempts: nat
    /** Sleeps of 0.2 s taken before a retry. */
    var sleeps: nat

    ghost predicate Valid()
      reads this
    {
      KeyUnique(table)
    }

    constructor (rows: seq<Row>)
      requires KeyUnique(rows)
      ensures Valid() && table == rows && connectAttempts == 0 && sleeps == 0
    {
      table := rows;
      connectAttempts := 0;
      sleeps := 0;
    }

    /** `GET /msapi/textfile?compid=..&filetype=..` (`getFileContent`). */
    method GetFileContent(compid: int, filetype: string, auth: AuthOutcome, fault: nat -> Fault,
                          parsesAsJson: string -> bool, parsesAsYaml: string -> bool) returns (resp: Response)
      requires Valid()
      modifies this`connectAttempts, this`sleeps
      ensures Valid() && table == old(table)
      ensures !ValidRequest(compid, filetype) ==>
                resp == Unprocessable && connectAttempts == old(connectAttempts) && sleeps == old(sleeps)
      ensures ValidRequest(compid, filetype) && AuthRejection(auth).Some? ==>
                resp == Unauthorized(AuthRejection(auth).value) && connectAttempts == old(connectAttempts) && sleeps == old(sleeps)
      ensures ValidRequest(compid, filetype) && AuthRejection(auth).None? ==>
                var run := Run(fault, 1);
                && connectAttempts == old(connectAttempts) + run.attempts
                && sleeps == old(sleeps) + run.attempts - 1
                && resp == match run
                           case Committed(_) =>
                             Render(filetype, Base64Column(Select(table, compid, filetype)), parsesAsJson, parsesAsYaml)
                           case GaveUp(_, message) => ServerError(StorageFailure(message))
    {
      // The framework checks the query before the handler runs.
      if !ValidRequest(compid, filetype) {
        return Unprocessable;
      }
      var rejection := AuthRejection(auth);
      if rejection.Some? {
        return Unauthorized(rejection.value);
      }
      var attempt := 1;
      while true
        invariant 1 <= attempt <= DbConnRetry
        invariant Run(fault, attempt) == Run(fault, 1)
        invariant connectAttempts == old(connectAttempts) + attempt - 1
        invariant sleeps == old(sleeps) + attempt - 1
        decreases DbConnRetry - attempt
      {
        connectAttempts := connectAttempts + 1;
        match fault(attempt) {
          case Clean =>
            var records := Select(table, compid, filetype);
            var file := CollectContents(records);
            var encoded := Concat(file);
            match Base64.Decode(encoded) {
              case Err(e) =>
                return ServerError(Base64Failure(e));
              case Ok(bytes) =>
                match Utf8.Decode(bytes) {
                  case Err(e) =>
                    return ServerError(Utf8Failure(e));
                  case Ok(decoded) =>
                    return Document(decoded, GetMimetype(filetype, decoded, parsesAsJson, parsesAsYaml));
                }
            }
          case Fatal(message) =>
            return ServerError(StorageFailure(message));
          case Transient(message) =>
            if attempt < DbConnRetry {
              sleeps := sleeps + 1;
              attempt := attempt + 1;
            } else {
              return ServerError(StorageFailure(message));
            }
        }
      }
    }

    /** `POST /msapi/textfile` with `{compid, filetype, file}` (`saveFileContent`). */
    method SaveFileContent(compid: int, filetype: string, file: seq<string>, auth: AuthOutcome, fault: nat -> Fault)
      returns (resp: Response)
      requires Valid()
      modifies this
      ensures Valid()
      ensures !ValidRequest(compid, filetype) ==>
                resp == Unprocessable && table == old(table) && connectAttempts == old(connectAttempts) && sleeps == old(sleeps)
      ensures ValidRequest(compid, filetype) && AuthRejection(auth).Some? ==>
                && resp == Unauthorized(AuthRejection(auth).value)
                && table == old(table) && connectAttempts == old(connectAttempts) && sleeps == old(sleeps)
      ensures ValidRequest(compid, filetype) && AuthRejection(auth).None? ==>
                var run := Run(fault, 1);
                && connectAttempts == old(connectAttempts) + run.attempts
                && sleeps == old(sleeps) + run.attempts - 1
                && match run
                   case Committed(_) =>
                     table == Replace(old(table), compid, filetype, file) && resp == Message(UpdatedDetail)
                   case GaveUp(_, message) =>
                     table == old(table) && resp == ServerError(StorageFailure(message))
    {
      // The framework checks the body before the handler runs.
      if !ValidRequest(compid, filetype) {
        return Unprocessable;
      }
      var rejection := AuthRejection(auth);
      if rejection.Some? {
        return Unauthorized(rejection.value);
      }
      var attempt := 1;
      while true
        invariant 1 <= attempt <= DbConnRetry
        invariant Run(fault, attempt) == Run(fault, 1)
        invariant connectAttempts == old(connectAttempts) + attempt - 1
        invariant sleeps == old(sleeps) + attempt - 1
        invariant table == old(table)
        decreases DbConnRetry - attempt
      {
        connectAttempts := connectAttempts + 1;
        var dataList := BuildRowList(compid, filetype, file);
        // One transaction: the DELETE, then the INSERT when there are lines;
        // neither is visible until the commit.
        var pending := WithoutFile(table, compid, filetype);
        if |dataList| > 0 {
          pending := pending + dataList;
        }
        assert pending == Replace(table, compid, filetype, file);
        match fault(attempt) {
          case Clean =>
            ReplacePreservesKeyUnique(table, compid, filetype, file);
            table := pending;
            return Message(UpdatedDetail);
          case Fatal(message) =>
            return ServerError(StorageFailure(message));
          case Transient(message) =>
            if attempt < DbConnRetry {
              sleeps := sleeps + 1;
              attempt := attempt + 1;
            } else {
              return ServerError(StorageFailure(message));
            }
        }
      }
    }
  }

  /**
   * A client of the two handlers: once a write of an encoded document has
   * committed, a read of the same file that gets through returns that
   * document, however many transient failures either of them met.
   */
  method PostThenGet(service: TextFileService, compid: int, filetype: string, lines: seq<string>, doc: string,
                     auth: AuthOutcome, writeFault: nat -> Fault, readFault: nat -> Fault,
                     parsesAsJson: string -> bool, parsesAsYaml: string -> bool)
    returns (written: Response, read: Response)
    requires service.Valid() && ValidRequest(compid, filetype) && auth == Replied(HttpOk)
    requires Concat(lines) == Base64.Encode(Utf8.Encode(doc))
    requires Run(writeFault, 1).Committed? && Run(readFault, 1).Committed?
    modifies service
    ensures written == Message(UpdatedDetail)
    ensures read == Document(doc, GetMimetype(filetype, doc, parsesAsJson, parsesAsYaml))
    ensures service.connectAttempts == old(service.connectAttempts) + Run(writeFault, 1).attempts + Run(readFault, 1).attempts
  {
    written := service.SaveFileContent(compid, filetype, lines, auth, writeFault);
    read := service.GetFileContent(compid, filetype, auth, readFault, parsesAsJson, parsesAsYaml);
    WriteThenReadDocument(old(service.table), compid, filetype, lines, doc, parsesAsJson, parsesAsYaml);
  }
}
