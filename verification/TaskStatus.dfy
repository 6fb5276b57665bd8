/** Task statuses, the predicates over them, and their textual forms. */
module TaskStatus {
  datatype Status = Pending | Queued | Generating | Success | Failed | Cancelled | Timeout | Unknown

  predicate IsTerminal(s: Status) {
    s.Success? || s.Failed? || s.Cancelled? || s.Timeout?
  }

  predicate CanCancel(s: Status) {
    s.Pending? || s.Queued? || s.Generating?
  }

  predicate CanRetry(s: Status, retryCount: int, maxRetries: int) {
    retryCount < maxRetries && (s.Failed? || s.Timeout? || s.Cancelled?)
  }

  predicate CanDelete(s: Status) {
    IsTerminal(s)
  }

  predicate CanReturnBinary(s: Status, storageKey: string) {
    s.Success? && storageKey != ""
  }

  function AsciiToLower(c: char): char {
    if 'A' <= c <= 'Z' then (c as int + 32) as char else c
  }

  function Lower(s: string): (t: string)
    ensures |t| == |s|
    ensures forall i :: 0 <= i < |s| ==>
              if 'A' <= s[i] <= 'Z' then t[i] as int == s[i] as int + 32 else t[i] == s[i]
  {
    seq(|s|, i requires 0 <= i < |s| => AsciiToLower(s[i]))
  }

  method CiEquals(a: string, b: string) returns (eq: bool)
    ensures eq <==> Lower(a) == Lower(b)
  {
    if |a| != |b| {
      return false;
    }
    for i := 0 to |a|
      invariant forall j :: 0 <= j < i ==> Lower(a)[j] == Lower(b)[j]
    {
      if AsciiToLower(a[i]) != AsciiToLower(b[i]) {
        assert Lower(a)[i] != Lower(b)[i];
        return false;
      }
    }
    return true;
  }

  function StatusFromString(s: string): Status {
    if s == "pending" then Pending
    else if s == "queued" then Queued
    else if s == "generating" then Generating
    else if s == "success" then Success
    else if s == "failed" then Failed
    else if s == "cancelled" then Cancelled
    else if s == "timeout" then Timeout
    else Unknown
  }

  function StatusToString(s: Status): string {
    match s
    case Pending => "pending"
    case Queued => "queued"
    case Generating => "generating"
    case Success => "success"
    case Failed => "failed"
    case Cancelled => "cancelled"
    case Timeout => "timeout"
    case Unknown => "unknown"
  }

  /** What a lower-case name means: the stored names plus the aliases a model service may use. */
  function Classify(lowered: string): Status {
    if lowered in {"success", "succeeded", "completed", "done", "ok"} then Success
    else if lowered in {"failed", "failure", "error"} then Failed
    else if lowered == "processing" then Generating
    else StatusFromString(lowered)
  }

  const BUFFER_SIZE: nat := 32

  lemma LowerCaseNames()
    ensures Lower("success") == "success" && Lower("succeeded") == "succeeded"
    ensures Lower("completed") == "completed" && Lower("done") == "done" && Lower("ok") == "ok"
    ensures Lower("failed") == "failed" && Lower("failure") == "failure" && Lower("error") == "error"
    ensures Lower("queued") == "queued" && Lower("pending") == "pending"
    ensures Lower("processing") == "processing" && Lower("generating") == "generating"
    ensures Lower("cancelled") == "cancelled" && Lower("timeout") == "timeout"
    ensures Lower("unknown") == "unknown"
  {
  }

  /** The chain of comparisons and the fixed-size buffer together implement Classify on the
      lower-cased text: no name is long enough for the buffer limit to show. */
  method NormalizeTaskStatus(raw: string) returns (s: Status)
    ensures s.Success? <==> Lower(raw) in {"success", "succeeded", "completed", "done", "ok"}
    ensures s.Failed? <==> Lower(raw) in {"failed", "failure", "error"}
    ensures s.Generating? <==> Lower(raw) in {"processing", "generating"}
    ensures s.Queued? <==> Lower(raw) == "queued"
    ensures s.Pending? <==> Lower(raw) == "pending"
    ensures s.Cancelled? <==> Lower(raw) == "cancelled"
    ensures s.Timeout? <==> Lower(raw) == "timeout"
    ensures s == Classify(Lower(raw))
  {
    LowerCaseNames();
    var m1 := CiEquals(raw, "success");
    var m2 := CiEquals(raw, "succeeded");
    var m3 := CiEquals(raw, "completed");
    var m4 := CiEquals(raw, "done");
    var m5 := CiEquals(raw, "ok");
    if m1 || m2 || m3 || m4 || m5 {
      return Success;
    }
    m1 := CiEquals(raw, "failed");
    m2 := CiEquals(raw, "failure");
    m3 := CiEquals(raw, "error");
    if m1 || m2 || m3 {
      return Failed;
    }
    m1 := CiEquals(raw, "queued");
    if m1 {
      return Queued;
    }
    m1 := CiEquals(raw, "pending");
    if m1 {
      return Pending;
    }
    m1 := CiEquals(raw, "processing");
    m2 := CiEquals(raw, "generating");
    if m1 || m2 {
      return Generating;
    }
    if |raw| >= BUFFER_SIZE {
      return Unknown;
    }
    var buf := new char[BUFFER_SIZE](_ => '\0');
    for i := 0 to |raw|
      invariant buf[..i] == Lower(raw)[..i]
    {
      buf[i] := AsciiToLower(raw[i]);
    }
    assert buf[..|raw|] == Lower(raw);
    return StatusFromString(buf[..|raw|]);
  }

  /** Printing then reading a status gives it back, whichever reader is used and whatever
      letter case the text is put in. */
  lemma PrintReadRoundTrip(s: Status, text: string)
    requires Lower(text) == StatusToString(s)
    ensures StatusFromString(StatusToString(s)) == s
    ensures Classify(Lower(text)) == s
  {
  }
}
