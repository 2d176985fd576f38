/**
 Error-code resolution: the code validator, the in-memory database (`error_codes_db`),
 its persisted document, cache-first lookup with write-back, the full-replace download,
 and `handle_error_response`, which turns an `ERROR:` reply into description blocks.

 The remote service and the database file are parameters: a `Reply` is what one HTTP
 request returns and an `Xml` what parsing a document yields.
 */
module ErrorCodes {
  import opened Wrappers
  import opened Text
  import opened Hex
  import opened UartErrors
  import opened Seqs

  /** One `errorCode` element: its `ErrorCode` and `Description` texts. */
  type Entry = (string, string)

  /**
   The in-memory database, a Python dict: entries in insertion order. Documents use the
   same shape (elements lacking either child are skipped by every reader, so they are absent).
   */
  type Cache = seq<Entry>

  /** A parsed XML document: the root tag and its `errorCode` entries, or unparsable text. */
  datatype Xml = Malformed | Doc(root: string, entries: seq<Entry>)

  /** What a request to the remote service gives: no answer at all, or a status and a body. */
  datatype Reply = Unreachable | Received(status: int, body: Xml)

  /** The database after an operation, and what the operation returned or raised. */
  datatype Step<T> = Step(cache: Cache, out: Result<T, UartError>)

  const ROOT: string := "errorCodes"
  const UNKNOWN_ERROR: string := "Unknown error"

  /**
   `validate_error_code`: the upper-cased code is exactly eight characters of `[0-9A-F]`,
   so a code is valid exactly when it is eight hexadecimal digits in either case.
   */
  function ValidErrorCode(code: string): (ok: bool)
    ensures ok <==> |code| == 8 && AllHexDigits(code)
  {
    var u := Upper(code);
    |u| == 8 && forall i :: 0 <= i < |u| ==> IsUpperHexDigit(u[i])
  }

  /** Python dict keys are unique. */
  predicate DistinctKeys(c: Cache) {
    forall i, j :: 0 <= i < j < |c| ==> c[i].0 != c[j].0
  }

  function Keys(c: Cache): set<string> {
    set i | 0 <= i < |c| :: c[i].0
  }

  lemma KeysCons(e: Entry, c: Cache)
    ensures Keys([e] + c) == {e.0} + Keys(c)
    ensures [e] + c != [] && ([e] + c)[1..] == c
  {
    assert ([e] + c)[1..] == c;
    forall k | k in Keys(c) ensures k in Keys([e] + c) {
      var i :| 0 <= i < |c| && c[i].0 == k;
      assert ([e] + c)[i + 1].0 == k;
    }
    assert ([e] + c)[0].0 == e.0;
  }

  /** The description stored under `code`: the first entry with that code. */
  function Lookup(c: Cache, code: string): (r: Option<string>)
    ensures r.None? <==> code !in Keys(c)
    ensures r.Some? ==> (code, r.value) in c
    ensures r.Some? && DistinctKeys(c) ==> forall i :: 0 <= i < |c| && c[i].0 == code ==> c[i].1 == r.value
    decreases |c|
  {
    if |c| == 0 then None
    else if c[0].0 == code then Some(c[0].1)
    else
      assert Keys(c) == {c[0].0} + Keys(c[1..]);
      Lookup(c[1..], code)
  }

  /**
   `db[code] = desc`: an existing key keeps its place and takes the new description, a new
   key is appended. Every other key keeps its description.
   */
  function Put(c: Cache, code: string, desc: string): (r: Cache)
    ensures Lookup(r, code) == Some(desc)
    ensures forall k :: k != code ==> Lookup(r, k) == Lookup(c, k)
    ensures Keys(r) == Keys(c) + {code}
    ensures code !in Keys(c) ==> r == c + [(code, desc)]
    ensures DistinctKeys(c) ==> DistinctKeys(r)
    decreases |c|
  {
    if |c| == 0 then [(code, desc)]
    else if c[0].0 == code then
      PutAtHead(c, code, desc);
      [(code, desc)] + c[1..]
    else
      var rest := Put(c[1..], code, desc);
      PutBelowHead(c, code, desc, rest);
      [c[0]] + rest
  }

  lemma DistinctCons(e: Entry, c: Cache)
    ensures DistinctKeys([e] + c) <==> e.0 !in Keys(c) && DistinctKeys(c)
  {
    var ec := [e] + c;
    KeysCons(e, c);
    if DistinctKeys(ec) {
      forall i, j | 0 <= i < j < |c| ensures c[i].0 != c[j].0 {
        assert c[i] == ec[i + 1] && c[j] == ec[j + 1];
      }
      forall i | 0 <= i < |c| ensures c[i].0 != e.0 {
        assert c[i] == ec[i + 1] && e == ec[0];
      }
    }
    if e.0 !in Keys(c) && DistinctKeys(c) {
      forall i, j | 0 <= i < j < |ec| ensures ec[i].0 != ec[j].0 {
        assert ec[j] == c[j - 1];
        if i > 0 {
          assert ec[i] == c[i - 1];
        }
      }
    }
  }

  lemma PutAtHead(c: Cache, code: string, desc: string)
    requires c != [] && c[0].0 == code
    ensures var r := [(code, desc)] + c[1..];
      && Lookup(r, code) == Some(desc)
      && (forall k :: k != code ==> Lookup(r, k) == Lookup(c, k))
      && Keys(r) == Keys(c) + {code}
      && (DistinctKeys(c) ==> DistinctKeys(r))
  {
    assert c == [c[0]] + c[1..];
    KeysCons(c[0], c[1..]);
    KeysCons((code, desc), c[1..]);
    DistinctCons(c[0], c[1..]);
    DistinctCons((code, desc), c[1..]);
  }

  lemma PutBelowHead(c: Cache, code: string, desc: string, rest: Cache)
    requires c != [] && c[0].0 != code
    requires Lookup(rest, code) == Some(desc)
    requires forall k :: k != code ==> Lookup(rest, k) == Lookup(c[1..], k)
    requires Keys(rest) == Keys(c[1..]) + {code}
    requires code !in Keys(c[1..]) ==> rest == c[1..] + [(code, desc)]
    requires DistinctKeys(c[1..]) ==> DistinctKeys(rest)
    ensures var r := [c[0]] + rest;
      && Lookup(r, code) == Some(desc)
      && (forall k :: k != code ==> Lookup(r, k) == Lookup(c, k))
      && Keys(r) == Keys(c) + {code}
      && (code !in Keys(c) ==> r == c + [(code, desc)])
      && (DistinctKeys(c) ==> DistinctKeys(r))
  {
    LookupBelowHead(c, code, desc, rest);
    KeysBelowHead(c, code, desc, rest);
    DistinctBelowHead(c, code, rest);
  }

  lemma KeysBelowHead(c: Cache, code: string, desc: string, rest: Cache)
    requires c != []
    requires Keys(rest) == Keys(c[1..]) + {code}
    requires code !in Keys(c[1..]) ==> rest == c[1..] + [(code, desc)]
    ensures Keys([c[0]] + rest) == Keys(c) + {code}
    ensures code !in Keys(c) ==> [c[0]] + rest == c + [(code, desc)]
  {
    assert c == [c[0]] + c[1..];
    KeysCons(c[0], c[1..]);
    KeysCons(c[0], rest);
    if code !in Keys(c) {
      assert [c[0]] + rest == [c[0]] + (c[1..] + [(code, desc)]);
    }
  }

  lemma LookupBelowHead(c: Cache, code: string, desc: string, rest: Cache)
    requires c != [] && c[0].0 != code
    requires Lookup(rest, code) == Some(desc)
    requires forall k :: k != code ==> Lookup(rest, k) == Lookup(c[1..], k)
    ensures Lookup([c[0]] + rest, code) == Some(desc)
    ensures forall k :: k != code ==> Lookup([c[0]] + rest, k) == Lookup(c, k)
  {
    var r := [c[0]] + rest;
    assert r[0] == c[0] && r[1..] == rest;
  }

  lemma DistinctBelowHead(c: Cache, code: string, rest: Cache)
    requires c != [] && c[0].0 != code
    requires Keys(rest) == Keys(c[1..]) + {code}
    requires DistinctKeys(c[1..]) ==> DistinctKeys(rest)
    ensures DistinctKeys(c) ==> DistinctKeys([c[0]] + rest)
  {
    assert c == [c[0]] + c[1..];
    DistinctCons(c[0], c[1..]);
    DistinctCons(c[0], rest);
  }

  /** Successive `db[code] = desc` assignments, in document order. */
  function PutAll(c: Cache, entries: seq<Entry>): Cache
    decreases |entries|
  {
    if |entries| == 0 then c
    else
      var last := entries[|entries| - 1];
      Put(PutAll(c, entries[..|entries| - 1]), last.0, last.1)
  }

  /** The description of the LAST entry with `code`: the one a sequence of assignments leaves. */
  function LastLookup(entries: seq<Entry>, code: string): Option<string>
    decreases |entries|
  {
    if |entries| == 0 then None
    else if entries[|entries| - 1].0 == code then Some(entries[|entries| - 1].1)
    else LastLookup(entries[..|entries| - 1], code)
  }

  /** What `code` should hold after `entries` are assigned into `c`: its last assigned description, else its old one. */
  function Merged(c: Cache, entries: seq<Entry>, code: string): Option<string> {
    if LastLookup(entries, code).Some? then LastLookup(entries, code) else Lookup(c, code)
  }

  /** After a run of assignments, a key holds its last assigned description, or what it held before. */
  lemma {:induction false} LookupPutAll(c: Cache, entries: seq<Entry>, code: string)
    ensures Lookup(PutAll(c, entries), code) == Merged(c, entries, code)
    decreases |entries|
  {
    if |entries| > 0 {
      LookupPutAll(c, entries[..|entries| - 1], code);
    }
  }

  lemma {:induction false} PutAllDistinct(c: Cache, entries: seq<Entry>)
    requires DistinctKeys(c)
    ensures DistinctKeys(PutAll(c, entries))
    decreases |entries|
  {
    if |entries| > 0 {
      PutAllDistinct(c, entries[..|entries| - 1]);
    }
  }

  /** The entries whose code passes `validate_error_code`, in order. */
  function ValidEntries(entries: seq<Entry>): (r: seq<Entry>)
    ensures forall code :: LastLookup(r, code) == Downloaded(entries, code)
    decreases |entries|
  {
    if |entries| == 0 then []
    else
      var front := ValidEntries(entries[..|entries| - 1]);
      var last := entries[|entries| - 1];
      if ValidErrorCode(last.0) then
        assert (front + [last])[..|front + [last]| - 1] == front;
        front + [last]
      else front
  }

  /** What a full download stores under `code`: the last description the payload gives a valid code, nothing otherwise. */
  function Downloaded(entries: seq<Entry>, code: string): Option<string> {
    if ValidErrorCode(code) then LastLookup(entries, code) else None
  }

  /** `save_error_codes`: the document written, root `errorCodes`, one element per entry in order. */
  function SaveErrorCodes(c: Cache): (doc: Xml)
    ensures doc.Doc? && doc.root == ROOT
    ensures doc.entries == c
  {
    Doc(ROOT, c)
  }

  /**
   `load_error_codes`, with the parsed file as `file` (None when there is no file). A missing
   file or a foreign root leaves the database as it is; unparsable content raises; otherwise
   every stored entry is assigned into the database, without validation, merging with it.
   */
  function LoadErrorCodes(c: Cache, file: Option<Xml>): (r: Result<Cache, UartError>)
    ensures r.Failure? <==> file == Some(Malformed)
    ensures r.Failure? ==> r.error == CorruptDatabase
    ensures (file.None? || (file.Some? && file.value.Doc? && file.value.root != ROOT)) ==> r == Success(c)
    ensures file.Some? && file.value.Doc? && file.value.root == ROOT ==> forall code :: Lookup(r.value, code) == Merged(c, file.value.entries, code)
    ensures r.Success? && DistinctKeys(c) ==> DistinctKeys(r.value)
  {
    match file
    case None => Success(c)
    case Some(Malformed) => Failure(CorruptDatabase)
    case Some(Doc(root, entries)) =>
      if root == ROOT then
        assert forall code :: Lookup(PutAll(c, entries), code) == Merged(c, entries, code) by {
          forall code {
            LookupPutAll(c, entries, code);
          }
        }
        assert DistinctKeys(c) ==> DistinctKeys(PutAll(c, entries)) by {
          if DistinctKeys(c) {
            PutAllDistinct(c, entries);
          }
        }
        Success(PutAll(c, entries))
      else Success(c)
  }

  /** Assigning entries whose keys are all new appends them, in order. */
  lemma {:induction false} PutAllFresh(c: Cache, entries: seq<Entry>)
    requires DistinctKeys(c + entries)
    ensures PutAll(c, entries) == c + entries
    decreases |entries|
  {
    if |entries| > 0 {
      var front := entries[..|entries| - 1];
      var last := entries[|entries| - 1];
      assert c + entries == (c + front) + [last];
      assert DistinctKeys(c + front) by {
        assert forall i :: 0 <= i < |c + front| ==> (c + front)[i] == (c + entries)[i];
      }
      PutAllFresh(c, front);
      assert last.0 !in Keys(c + front) by {
        forall i | 0 <= i < |c + front|
          ensures (c + front)[i].0 != last.0
        {
          assert (c + front)[i] == (c + entries)[i];
          assert last == (c + entries)[|c + entries| - 1];
        }
      }
    }
  }

  /** Saving and then loading into an empty database gives the database back, order included. */
  lemma SaveLoadRoundTrip(c: Cache)
    requires DistinctKeys(c)
    ensures LoadErrorCodes([], Some(SaveErrorCodes(c))) == Success(c)
  {
    assert [] + c == c;
    PutAllFresh([], c);
  }

  /** Assigning entries a database already holds changes nothing. */
  lemma {:induction false} PutAllPresent(c: Cache, entries: seq<Entry>)
    requires DistinctKeys(c)
    requires forall i :: 0 <= i < |entries| ==> entries[i] in c
    ensures PutAll(c, entries) == c
    decreases |entries|
  {
    if |entries| > 0 {
      var last := entries[|entries| - 1];
      PutAllPresent(c, entries[..|entries| - 1]);
      PutPresent(c, last.0, last.1);
    }
  }

  lemma {:induction false} PutPresent(c: Cache, code: string, desc: string)
    requires DistinctKeys(c)
    requires (code, desc) in c
    ensures Put(c, code, desc) == c
    decreases |c|
  {
    if c[0].0 != code {
      PutPresent(c[1..], code, desc);
    } else {
      assert c[0] == (code, desc) by {
        var i :| 0 <= i < |c| && c[i] == (code, desc);
        assert i == 0;
      }
    }
  }

  /** Loading the saved database into itself changes nothing: loading is idempotent. */
  lemma SaveLoadIdempotent(c: Cache)
    requires DistinctKeys(c)
    ensures LoadErrorCodes(c, Some(SaveErrorCodes(c))) == Success(c)
  {
    PutAllPresent(c, c);
  }

  /** The description the remote reply carries for `code`: a 200 reply with root `errorCodes`, first match. */
  function RemoteMatch(reply: Reply, code: string): Option<string> {
    if reply.Received? && reply.status == 200 && reply.body.Doc? && reply.body.root == ROOT
    then Lookup(reply.body.entries, code)
    else None
  }

  /** True when the remote request raises: no answer, or a 200 reply that is not well-formed. */
  predicate RemoteFails(reply: Reply) {
    reply.Unreachable? || (reply.status == 200 && reply.body.Malformed?)
  }

  /**
   `get_error_description`, with `reply` what the remote service answers for this code.
   An invalid code raises. A cached code returns its description and leaves the database
   alone. Otherwise the remote is asked: a match is stored (appended) and returned, no match
   returns "Unknown error" and stores nothing, a failed request raises and stores nothing.
   */
  function GetErrorDescription(c: Cache, code: string, reply: Reply): (r: Step<string>)
    ensures !ValidErrorCode(code) ==> r == Step(c, Failure(InvalidCode))
    ensures ValidErrorCode(code) && code in Keys(c) ==> r == Step(c, Success(Lookup(c, code).value))
    ensures ValidErrorCode(code) && code !in Keys(c) ==>
      && (r.out.Failure? <==> RemoteFails(reply))
      && (r.out.Failure? ==> r == Step(c, Failure(LookupFailure)))
      && (RemoteMatch(reply, code).Some? ==>
            r == Step(c + [(code, RemoteMatch(reply, code).value)], Success(RemoteMatch(reply, code).value)))
      && (RemoteMatch(reply, code).None? && !RemoteFails(reply) ==> r == Step(c, Success(UNKNOWN_ERROR)))
  {
    if !ValidErrorCode(code) then Step(c, Failure(InvalidCode))
    else match Lookup(c, code)
      case Some(desc) => Step(c, Success(desc))
      case None =>
        match reply
        case Unreachable => Step(c, Failure(LookupFailure))
        case Received(status, body) =>
          if status != 200 then Step(c, Success(UNKNOWN_ERROR))
          else match body
            case Malformed => Step(c, Failure(LookupFailure))
            case Doc(root, entries) =>
              if root != ROOT then Step(c, Success(UNKNOWN_ERROR))
              else match Lookup(entries, code)
                case Some(desc) => Step(Put(c, code, desc), Success(desc))
                case None => Step(c, Success(UNKNOWN_ERROR))
  }

  /**
   `download_error_database`. A 200 reply with root `errorCodes` replaces the database: every
   earlier entry is gone, and exactly the valid codes of the payload remain, each with the
   description of its last occurrence. Any other answer returns False, a failed request
   raises; neither touches the database.
   */
  function DownloadErrorDatabase(c: Cache, reply: Reply): (r: Step<bool>)
    ensures r.out == Success(true) <==> reply.Received? && reply.status == 200 && reply.body.Doc? && reply.body.root == ROOT
    ensures r.out.Failure? <==> RemoteFails(reply)
    ensures r.out.Failure? ==> r.out.error == LookupFailure
    ensures r.out != Success(true) ==> r.cache == c
    ensures r.out == Success(true) ==> DistinctKeys(r.cache)
    ensures r.out == Success(true) ==> forall code :: Lookup(r.cache, code) == Downloaded(reply.body.entries, code)
  {
    match reply
    case Unreachable => Step(c, Failure(LookupFailure))
    case Received(status, body) =>
      if status != 200 then Step(c, Success(false))
      else match body
        case Malformed => Step(c, Failure(LookupFailure))
        case Doc(root, entries) =>
          if root != ROOT then Step(c, Success(false))
          else
            var rebuilt := PutAll([], ValidEntries(entries));
            PutAllDistinct([], ValidEntries(entries));
            assert forall code :: Lookup(rebuilt, code) == Downloaded(entries, code) by {
              forall code {
                LookupPutAll([], ValidEntries(entries), code);
              }
            }
            Step(rebuilt, Success(true))
  }

  /** `_parse_error_offline`: the description text for a code, from the database alone. */
  function ParseErrorOffline(c: Cache, code: string): (r: string)
    ensures code in Keys(c) ==> r == Block(code, Lookup(c, code).value)
    ensures code !in Keys(c) ==> r == "Error code: " + code + "\nNo description available in offline database"
  {
    match Lookup(c, code)
    case Some(desc) => Block(code, desc)
    case None => "Error code: " + code + "\nNo description available in offline database"
  }

  /** The prefix every description block starts with. */
  function Header(code: string): string {
    "Error code: " + code + "\nDescription: "
  }

  /** One block of `handle_error_response`'s output. */
  function Block(code: string, desc: string): string {
    Header(code) + desc
  }

  /** A piece of the reply that is a valid code once stripped of surrounding whitespace. */
  predicate IsValidPiece(piece: string) {
    ValidErrorCode(StripSpace(piece))
  }

  /** The stripped pieces that pass `validate_error_code`, in order. */
  function ValidCodes(pieces: seq<string>): (codes: seq<string>)
    ensures forall i :: 0 <= i < |codes| ==> ValidErrorCode(codes[i])
    ensures |codes| <= |pieces|
    decreases |pieces|
  {
    if |pieces| == 0 then []
    else
      var code := StripSpace(pieces[0]);
      if ValidErrorCode(code) then [code] + ValidCodes(pieces[1..]) else ValidCodes(pieces[1..])
  }

  /**
   `ValidCodes` is the order-preserving filter: its `j`-th code is the stripped form of the
   `j`-th piece that is a valid code once stripped, and there is one code per such piece.
   */
  lemma {:induction false} ValidCodesKeepsValidPieces(pieces: seq<string>)
    ensures |ValidCodes(pieces)| == |Kept(pieces, IsValidPiece)|
    ensures forall j :: 0 <= j < |ValidCodes(pieces)| ==> ValidCodes(pieces)[j] == StripSpace(pieces[Kept(pieces, IsValidPiece)[j]])
    decreases |pieces|
  {
    if pieces != [] {
      ValidCodesKeepsValidPieces(pieces[1..]);
      ValidCodesCons(pieces);
      KeptStep(pieces, IsValidPiece, StripSpace, ValidCodes(pieces[1..]), ValidCodes(pieces));
    }
  }

  lemma ValidCodesCons(pieces: seq<string>)
    requires pieces != []
    ensures ValidCodes(pieces) == (if IsValidPiece(pieces[0]) then [StripSpace(pieces[0])] else []) + ValidCodes(pieces[1..])
  {
    if !IsValidPiece(pieces[0]) {
      assert ([] + ValidCodes(pieces[1..])) == ValidCodes(pieces[1..]);
    }
  }

  /** A code the database already describes, or whose remote request does not raise. */
  predicate Answerable(c: Cache, remote: string -> Reply, code: string) {
    code in Keys(c) || !RemoteFails(remote(code))
  }

  predicate AllAnswerable(c: Cache, remote: string -> Reply, codes: seq<string>) {
    forall i :: 0 <= i < |codes| ==> Answerable(c, remote, codes[i])
  }

  /** Storing descriptions never makes a code unanswerable. */
  lemma AnswerableExtends(c: Cache, c': Cache, remote: string -> Reply, codes: seq<string>)
    requires Extends(c, c') && AllAnswerable(c, remote, codes)
    ensures AllAnswerable(c', remote, codes)
  {
    forall i | 0 <= i < |codes| ensures Answerable(c', remote, codes[i]) {
      if codes[i] in Keys(c) {
        assert Lookup(c', codes[i]) == Lookup(c, codes[i]);
      }
    }
  }

  /** Every key of `c` keeps its description in `c'`. */
  predicate Extends(c: Cache, c': Cache) {
    forall code :: code in Keys(c) ==> Lookup(c', code) == Lookup(c, code)
  }

  /**
   The loop of `handle_error_response`: one block per piece that is a valid code once stripped,
   in input order, each naming its code; invalid pieces are dropped. Looked-up descriptions
   are stored as the loop goes, so a failure keeps what earlier codes stored.
   */
  function Describe(c: Cache, remote: string -> Reply, pieces: seq<string>): (r: Step<seq<string>>)
    ensures r.out.Success? ==> |r.out.value| == |ValidCodes(pieces)|
    ensures r.out.Success? ==> forall i :: 0 <= i < |r.out.value| ==> Header(ValidCodes(pieces)[i]) <= r.out.value[i]
    ensures Extends(c, r.cache)
    ensures DistinctKeys(c) ==> DistinctKeys(r.cache)
    ensures r.out.Failure? ==> r.out.error == LookupFailure
    ensures AllAnswerable(c, remote, ValidCodes(pieces)) ==> r.out.Success?
    decreases |pieces|
  {
    if |pieces| == 0 then Step(c, Success([]))
    else
      var code := StripSpace(pieces[0]);
      if !ValidErrorCode(code) then Describe(c, remote, pieces[1..])
      else
        var d := GetErrorDescription(c, code, remote(code));
        DescriptionExtends(c, code, remote(code));
        if d.out.Failure? then
          UnanswerableHead(c, remote, pieces);
          Step(d.cache, Failure(d.out.error))
        else
          AnswerableTail(c, d.cache, remote, pieces);
          var rest := Describe(d.cache, remote, pieces[1..]);
          ExtendsTransitive(c, d.cache, rest.cache);
          if rest.out.Failure? then rest
          else
            assert ValidCodes(pieces) == [code] + ValidCodes(pieces[1..]);
            HeadersCons(code, d.out.value, ValidCodes(pieces[1..]), rest.out.value);
            Step(rest.cache, Success([Block(code, d.out.value)] + rest.out.value))
  }

  /** A first valid code that can be neither found nor fetched makes the pieces unanswerable. */
  lemma UnanswerableHead(c: Cache, remote: string -> Reply, pieces: seq<string>)
    requires pieces != [] && ValidErrorCode(StripSpace(pieces[0]))
    requires !Answerable(c, remote, StripSpace(pieces[0]))
    ensures !AllAnswerable(c, remote, ValidCodes(pieces))
  {
    assert ValidCodes(pieces)[0] == StripSpace(pieces[0]);
  }

  /** What `Describe` needs to carry answerability past its first valid code. */
  lemma AnswerableTail(c: Cache, c': Cache, remote: string -> Reply, pieces: seq<string>)
    requires pieces != [] && ValidErrorCode(StripSpace(pieces[0])) && Extends(c, c')
    ensures AllAnswerable(c, remote, ValidCodes(pieces)) ==> AllAnswerable(c', remote, ValidCodes(pieces[1..]))
  {
    var later := ValidCodes(pieces[1..]);
    assert ValidCodes(pieces) == [StripSpace(pieces[0])] + later;
    if AllAnswerable(c, remote, [StripSpace(pieces[0])] + later) {
      AnswerableCons(c, remote, StripSpace(pieces[0]), later);
      AnswerableExtends(c, c', remote, later);
    }
  }

  lemma AnswerableCons(c: Cache, remote: string -> Reply, code: string, later: seq<string>)
    requires AllAnswerable(c, remote, [code] + later)
    ensures AllAnswerable(c, remote, later)
  {
    forall i | 0 <= i < |later| ensures Answerable(c, remote, later[i]) {
      assert later[i] == ([code] + later)[i + 1];
    }
  }

  /** A description lookup only ever adds an entry for a new valid code. */
  lemma DescriptionExtends(c: Cache, code: string, reply: Reply)
    requires ValidErrorCode(code)
    ensures var d := GetErrorDescription(c, code, reply);
      && Extends(c, d.cache)
      && (DistinctKeys(c) ==> DistinctKeys(d.cache))
      && (d.out.Failure? ==> d.out.error == LookupFailure)
  {
    var d := GetErrorDescription(c, code, reply);
    if d.cache != c {
      var desc := RemoteMatch(reply, code).value;
      assert d.cache == Put(c, code, desc);
    }
  }

  lemma ExtendsTransitive(a: Cache, b: Cache, c: Cache)
    requires Extends(a, b) && Extends(b, c)
    ensures Extends(a, c)
  {
    forall code | code in Keys(a) ensures Lookup(c, code) == Lookup(a, code) {
      assert Lookup(b, code) == Lookup(a, code);
    }
  }

  lemma HeadersCons(code: string, desc: string, codes: seq<string>, blocks: seq<string>)
    requires |blocks| == |codes|
    requires forall i :: 0 <= i < |blocks| ==> Header(codes[i]) <= blocks[i]
    ensures forall i :: 0 <= i < |blocks| + 1 ==> Header(([code] + codes)[i]) <= ([Block(code, desc)] + blocks)[i]
  {
    var all := [Block(code, desc)] + blocks;
    var allCodes := [code] + codes;
    forall i | 0 <= i < |all| ensures Header(allCodes[i]) <= all[i] {
      if i == 0 {
        assert Block(code, desc) == Header(code) + desc;
      } else {
        assert all[i] == blocks[i - 1] && allCodes[i] == codes[i - 1];
      }
    }
  }

  const ERROR_PREFIX: string := "ERROR:"

  /** A text starting with a header is not empty and does not start with "ERROR:". */
  lemma HeaderIsNotError(code: string, text: string)
    requires Header(code) <= text
    ensures text != [] && !(ERROR_PREFIX <= text)
  {
    assert text[1] == Header(code)[1] == 'r';
  }

  lemma PrefixTransitive(a: string, b: string, c: string)
    requires a <= b && b <= c
    ensures a <= c
  {
    assert c[..|a|] == b[..|a|];
  }

  /**
   `handle_error_response`, with `remote` the service's answer for each code. A reply not
   starting with "ERROR:" is returned unchanged. Otherwise the output is the blocks of
   `Describe` joined by blank lines: empty when no piece is a valid code, else starting with
   the first valid code's header. Either way the output never starts with "ERROR:".
   */
  function HandleErrorResponse(c: Cache, remote: string -> Reply, response: string): (r: Step<string>)
    ensures !(ERROR_PREFIX <= response) ==> r == Step(c, Success(response))
    ensures r.out.Success? ==> !(ERROR_PREFIX <= r.out.value)
    ensures r.out.Success? && ERROR_PREFIX <= response ==>
      var codes := ValidCodes(Split(response[|ERROR_PREFIX|..], ','));
      && (r.out.value == [] <==> codes == [])
      && (codes != [] ==> Header(codes[0]) <= r.out.value)
    ensures r.out.Failure? ==> r.out.error == LookupFailure
    ensures ERROR_PREFIX <= response && AllAnswerable(c, remote, ValidCodes(Split(response[|ERROR_PREFIX|..], ','))) ==>
      r.out.Success?
    ensures Extends(c, r.cache)
    ensures DistinctKeys(c) ==> DistinctKeys(r.cache)
  {
    if ERROR_PREFIX <= response then
      var pieces := Split(response[|ERROR_PREFIX|..], ',');
      var s := Describe(c, remote, pieces);
      if s.out.Failure? then Step(s.cache, Failure(s.out.error))
      else
        JoinedBlocks(ValidCodes(pieces), s.out.value);
        Step(s.cache, Success(Join(s.out.value, "\n\n")))
    else Step(c, Success(response))
  }

  /**
   Blocks that each start with a header join into a text that is empty exactly when there are
   no blocks, starts with the first header otherwise, and so never starts with "ERROR:".
   */
  lemma JoinedBlocks(codes: seq<string>, blocks: seq<string>)
    requires |blocks| == |codes|
    requires forall i :: 0 <= i < |blocks| ==> Header(codes[i]) <= blocks[i]
    ensures var text := Join(blocks, "\n\n");
      && (text == [] <==> codes == [])
      && (codes != [] ==> Header(codes[0]) <= text)
      && !(ERROR_PREFIX <= text)
  {
    if blocks != [] {
      JoinStartsWithFirst(blocks, "\n\n");
      PrefixTransitive(Header(codes[0]), blocks[0], Join(blocks, "\n\n"));
      HeaderIsNotError(codes[0], Join(blocks, "\n\n"));
    }
  }

  /** The database after looking up each of `codes` in turn, as the loop threads it. */
  function Threaded(c: Cache, remote: string -> Reply, codes: seq<string>): Cache
    decreases |codes|
  {
    if |codes| == 0 then c
    else Threaded(GetErrorDescription(c, codes[0], remote(codes[0])).cache, remote, codes[1..])
  }

  /** The lookup of the `k`-th code, on the database its predecessors left behind. */
  function DescriptionAt(c: Cache, remote: string -> Reply, codes: seq<string>, k: nat): Step<string>
    requires k < |codes|
  {
    GetErrorDescription(Threaded(c, remote, codes[..k]), codes[k], remote(codes[k]))
  }

  /** Every code's lookup succeeds on its threaded database. */
  predicate AllDescribed(c: Cache, remote: string -> Reply, codes: seq<string>) {
    forall k: nat :: k < |codes| ==> DescriptionAt(c, remote, codes, k).out.Success?
  }

  /** One block per code, each with the description its threaded lookup returns. */
  function Answers(c: Cache, remote: string -> Reply, codes: seq<string>): (blocks: seq<string>)
    requires AllDescribed(c, remote, codes)
    ensures |blocks| == |codes|
  {
    seq(|codes|, k requires 0 <= k < |codes| => Block(codes[k], DescriptionAt(c, remote, codes, k).out.value))
  }

  /** Looking up a first code moves the threading on by one code. */
  lemma ThreadedCons(c: Cache, remote: string -> Reply, codes: seq<string>, k: nat)
    requires 0 < k < |codes|
    ensures DescriptionAt(c, remote, codes, k)
         == DescriptionAt(GetErrorDescription(c, codes[0], remote(codes[0])).cache, remote, codes[1..], k - 1)
  {
    assert codes[..k][1..] == codes[1..][..k - 1];
  }

  /**
   `Describe` against its reference: it succeeds exactly when every valid code's lookup on
   its threaded database does; it then returns one block per code with that description,
   and leaves the database threaded through all the codes. On a failure it stops at the
   first code whose lookup fails, with the database its predecessors left.
   */
  lemma {:induction false} DescribeIsThreaded(c: Cache, remote: string -> Reply, pieces: seq<string>)
    ensures var r := Describe(c, remote, pieces); var codes := ValidCodes(pieces);
      && (r.out.Success? <==> AllDescribed(c, remote, codes))
      && (r.out.Success? ==> r.cache == Threaded(c, remote, codes) && r.out.value == Answers(c, remote, codes))
      && (r.out.Failure? ==> exists j: nat :: j < |codes| && FirstFailure(c, remote, codes, j) && r.cache == Threaded(c, remote, codes[..j]))
    decreases |pieces|
  {
    if |pieces| > 0 {
      var code := StripSpace(pieces[0]);
      if !ValidErrorCode(code) {
        DescribeIsThreaded(c, remote, pieces[1..]);
      } else {
        DescribeIsThreaded(GetErrorDescription(c, code, remote(code)).cache, remote, pieces[1..]);
        DescribeStep(c, remote, pieces);
      }
    }
  }

  /** `codes[j]` is the first code whose threaded lookup fails. */
  predicate FirstFailure(c: Cache, remote: string -> Reply, codes: seq<string>, j: nat)
    requires j < |codes|
  {
    && DescriptionAt(c, remote, codes, j).out.Failure?
    && forall k: nat :: k < j ==> DescriptionAt(c, remote, codes, k).out.Success?
  }

  /** The inductive step of `DescribeIsThreaded` for a first piece that is a valid code. */
  lemma DescribeStep(c: Cache, remote: string -> Reply, pieces: seq<string>)
    requires pieces != [] && ValidErrorCode(StripSpace(pieces[0]))
    requires var c1 := GetErrorDescription(c, StripSpace(pieces[0]), remote(StripSpace(pieces[0]))).cache;
      var r := Describe(c1, remote, pieces[1..]); var codes := ValidCodes(pieces[1..]);
      && (r.out.Success? <==> AllDescribed(c1, remote, codes))
      && (r.out.Success? ==> r.cache == Threaded(c1, remote, codes) && r.out.value == Answers(c1, remote, codes))
      && (r.out.Failure? ==> exists j: nat :: j < |codes| && FirstFailure(c1, remote, codes, j) && r.cache == Threaded(c1, remote, codes[..j]))
    ensures var r := Describe(c, remote, pieces); var codes := ValidCodes(pieces);
      && (r.out.Success? <==> AllDescribed(c, remote, codes))
      && (r.out.Success? ==> r.cache == Threaded(c, remote, codes) && r.out.value == Answers(c, remote, codes))
      && (r.out.Failure? ==> exists j: nat :: j < |codes| && FirstFailure(c, remote, codes, j) && r.cache == Threaded(c, remote, codes[..j]))
  {
    var code := StripSpace(pieces[0]);
    var later := ValidCodes(pieces[1..]);
    assert ValidCodes(pieces) == [code] + later;
    var d := GetErrorDescription(c, code, remote(code));
    var r := Describe(c, remote, pieces);
    if d.out.Failure? {
      FailedHead(c, remote, code, later);
    } else {
      var rest := Describe(d.cache, remote, pieces[1..]);
      AllDescribedCons(c, remote, code, later);
      if rest.out.Success? {
        assert r == Step(rest.cache, Success([Block(code, d.out.value)] + rest.out.value));
        AnswersCons(c, remote, code, later);
        ThreadedAll(c, remote, code, later);
      } else {
        var j: nat :| j < |later| && FirstFailure(d.cache, remote, later, j) && rest.cache == Threaded(d.cache, remote, later[..j]);
        FirstFailureCons(c, remote, code, later, j);
      }
    }
  }

  /** The first code's lookup is the plain one, on the database as given. */
  lemma ThreadedHead(c: Cache, remote: string -> Reply, code: string, later: seq<string>)
    ensures DescriptionAt(c, remote, [code] + later, 0) == GetErrorDescription(c, code, remote(code))
  {
    assert ([code] + later)[..0] == [];
  }

  /** A later code's lookup is its lookup in `later`, on the database the first lookup left. */
  lemma ThreadedLater(c: Cache, remote: string -> Reply, code: string, later: seq<string>, k: nat)
    requires 0 < k <= |later|
    ensures DescriptionAt(c, remote, [code] + later, k)
         == DescriptionAt(GetErrorDescription(c, code, remote(code)).cache, remote, later, k - 1)
  {
    ThreadedCons(c, remote, [code] + later, k);
    assert ([code] + later)[1..] == later;
  }

  lemma ThreadedAll(c: Cache, remote: string -> Reply, code: string, later: seq<string>)
    ensures Threaded(c, remote, [code] + later) == Threaded(GetErrorDescription(c, code, remote(code)).cache, remote, later)
  {
    assert ([code] + later)[1..] == later;
  }

  lemma FailedHead(c: Cache, remote: string -> Reply, code: string, later: seq<string>)
    requires GetErrorDescription(c, code, remote(code)).out.Failure?
    ensures FirstFailure(c, remote, [code] + later, 0)
    ensures !AllDescribed(c, remote, [code] + later)
    ensures Threaded(c, remote, ([code] + later)[..0]) == c
  {
    ThreadedHead(c, remote, code, later);
    assert ([code] + later)[..0] == [];
  }

  lemma AllDescribedCons(c: Cache, remote: string -> Reply, code: string, later: seq<string>)
    requires GetErrorDescription(c, code, remote(code)).out.Success?
    ensures AllDescribed(c, remote, [code] + later) <==> AllDescribed(GetErrorDescription(c, code, remote(code)).cache, remote, later)
  {
    var c1 := GetErrorDescription(c, code, remote(code)).cache;
    ThreadedHead(c, remote, code, later);
    if AllDescribed(c1, remote, later) {
      forall k: nat | k < |later| + 1 ensures DescriptionAt(c, remote, [code] + later, k).out.Success? {
        if k > 0 {
          ThreadedLater(c, remote, code, later, k);
        }
      }
    }
    if AllDescribed(c, remote, [code] + later) {
      forall k: nat | k < |later| ensures DescriptionAt(c1, remote, later, k).out.Success? {
        ThreadedLater(c, remote, code, later, k + 1);
      }
    }
  }

  lemma {:induction false} AnswersCons(c: Cache, remote: string -> Reply, code: string, later: seq<string>)
    requires AllDescribed(c, remote, [code] + later)
    requires AllDescribed(GetErrorDescription(c, code, remote(code)).cache, remote, later)
    ensures var d := GetErrorDescription(c, code, remote(code));
      d.out.Success? && Answers(c, remote, [code] + later) == [Block(code, d.out.value)] + Answers(d.cache, remote, later)
  {
    var d := GetErrorDescription(c, code, remote(code));
    ThreadedHead(c, remote, code, later);
    assert DescriptionAt(c, remote, [code] + later, 0).out.Success?;
    var all := Answers(c, remote, [code] + later);
    var tail := Answers(d.cache, remote, later);
    assert |all| == |[Block(code, d.out.value)] + tail|;
    forall k | 0 <= k < |all| ensures all[k] == ([Block(code, d.out.value)] + tail)[k] {
      if k > 0 {
        assert all[k] == tail[k - 1] by {
          ThreadedLater(c, remote, code, later, k);
          AnswerAt(c, remote, [code] + later, k);
          AnswerAt(d.cache, remote, later, k - 1);
        }
      }
    }
  }

  lemma AnswerAt(c: Cache, remote: string -> Reply, codes: seq<string>, k: nat)
    requires AllDescribed(c, remote, codes) && k < |codes|
    ensures DescriptionAt(c, remote, codes, k).out.Success?
    ensures Answers(c, remote, codes)[k] == Block(codes[k], DescriptionAt(c, remote, codes, k).out.value)
  {
  }

  lemma FirstFailureCons(c: Cache, remote: string -> Reply, code: string, later: seq<string>, j: nat)
    requires GetErrorDescription(c, code, remote(code)).out.Success?
    requires j < |later| && FirstFailure(GetErrorDescription(c, code, remote(code)).cache, remote, later, j)
    ensures FirstFailure(c, remote, [code] + later, j + 1)
    ensures Threaded(c, remote, ([code] + later)[..j + 1]) == Threaded(GetErrorDescription(c, code, remote(code)).cache, remote, later[..j])
  {
    assert FirstFailure(c, remote, [code] + later, j + 1) by {
      ThreadedHead(c, remote, code, later);
      ThreadedLater(c, remote, code, later, j + 1);
      forall k: nat | k < j + 1 ensures DescriptionAt(c, remote, [code] + later, k).out.Success? {
        if k > 0 {
          ThreadedLater(c, remote, code, later, k);
        }
      }
    }
    assert ([code] + later)[..j + 1] == [code] + later[..j];
    ThreadedAll(c, remote, code, later[..j]);
  }

  /**
   `handle_error_response` on an `ERROR:` reply, against the reference: it succeeds exactly
   when every valid code's threaded lookup does, and then returns those codes' blocks joined
   by blank lines, with the database threaded through all of them. A failure keeps what the
   codes before the first failing one stored.
   */
  lemma HandleErrorResponseIsThreaded(c: Cache, remote: string -> Reply, response: string)
    requires ERROR_PREFIX <= response
    ensures var r := HandleErrorResponse(c, remote, response);
      var codes := ValidCodes(Split(response[|ERROR_PREFIX|..], ','));
      && (r.out.Success? <==> AllDescribed(c, remote, codes))
      && (r.out.Success? ==> r.cache == Threaded(c, remote, codes) && r.out.value == Join(Answers(c, remote, codes), "\n\n"))
      && (r.out.Failure? ==> exists j: nat :: j < |codes| && FirstFailure(c, remote, codes, j) && r.cache == Threaded(c, remote, codes[..j]))
  {
    DescribeIsThreaded(c, remote, Split(response[|ERROR_PREFIX|..], ','));
  }
}
