/** Asking the model service for an image: whatever comes back, the task ends in a final state.

    The HTTP reply, the downloaded bytes, the storage outcome and the clock are inputs. */
module GenerationClient {
  import opened Wrappers
  import opened TaskStatus
  import opened ImageRows
  import opened Decimals

  /** The fields the client reads from the reply object; None where absent or of another type. */
  datatype Payload = Payload(
    requestId: Option<string>,
    statusText: Option<string>,
    imageUrlSnake: Option<string>,
    imageUrlCamel: Option<string>,
    url: Option<string>,
    image: Option<string>,
    errorMessage: Option<string>,
    generationTime: Option<real>)

  datatype Reply =
    | StdException(what: string)
    | OtherException
    | HttpFailure(message: string)
    | EmptyBody
    | InvalidJson
    | Json(top: Payload, data: Option<Payload>)

  datatype StorageOutcome = Stored(key: string) | StoreThrew(what: string)

  /** serviceUrl is "" when the configuration could not be read. */
  datatype Inputs = Inputs(
    serviceUrl: string,
    reply: Reply,
    downloaded: string,
    storage: StorageOutcome,
    now: int)

  /** Object keys are never empty. */
  predicate StorageWorks(inputs: Inputs) {
    inputs.storage.Stored? ==> inputs.storage.key != ""
  }

  function OrEmpty(text: Option<string>): string {
    if text.Some? then text.value else ""
  }

  predicate IsHttpUrl(s: string) {
    "http://" <= s || "https://" <= s
  }

  function RemoteImageUrl(p: Payload): string {
    OrEmpty(if p.imageUrlSnake.Some? then p.imageUrlSnake else p.imageUrlCamel)
  }

  /** An unknown status text changes nothing; a missing one resets the task to the default. */
  function MergedStatus(p: Payload, before: Status): Status {
    if p.statusText.None? then Pending
    else
      var s := Classify(Lower(p.statusText.value));
      if s.Unknown? then before else s
  }

  function MergedImageUrl(p: Payload, before: string): string {
    var first := if RemoteImageUrl(p) != "" then RemoteImageUrl(p) else before;
    var second := if first != "" then first
                  else OrEmpty(if p.imageUrlSnake.Some? then p.imageUrlSnake else p.url);
    if second == "" && p.image.Some? && IsHttpUrl(p.image.value) then p.image.value else second
  }

  function Merged(g: ImageGeneration, p: Payload): ImageGeneration {
    g.(requestId := if OrEmpty(p.requestId) != "" then p.requestId.value else g.requestId,
       status := MergedStatus(p, g.status),
       imageUrl := MergedImageUrl(p, g.imageUrl),
       errorMessage := if OrEmpty(p.errorMessage) != "" then p.errorMessage.value else g.errorMessage,
       generationTime := if p.generationTime.Some? && p.generationTime.value > 0.0
                         then p.generationTime.value else g.generationTime)
  }

  function FailedWith(g: ImageGeneration, code: string, message: string): ImageGeneration {
    g.(status := Failed, failureCode := code, errorMessage := message)
  }

  function Replied(g: ImageGeneration, reply: Reply): ImageGeneration {
    match reply
    case StdException(what) =>
      FailedWith(g, "python_service_exception", "python service exception: " + what)
    case OtherException =>
      FailedWith(g, "python_service_unknown_exception", "python service unknown exception")
    case HttpFailure(message) => FailedWith(g, "python_service_request_failed", message)
    case EmptyBody =>
      FailedWith(g, "python_service_empty_response", "python service returned empty response")
    case InvalidJson =>
      FailedWith(g, "python_service_invalid_json", "python service returned invalid json")
    case Json(top, data) => Merged(g, if data.Some? then data.value else top)
  }

  function AbsoluteUrl(url: string, serviceUrl: string): string {
    if !IsHttpUrl(url) && serviceUrl != "" && "/" <= url then serviceUrl + url else url
  }

  /** The bytes at hand once the reply's image address, if any, has been fetched. */
  function BytesAfterReply(g: ImageGeneration, inputs: Inputs): string {
    if Replied(g, inputs.reply).imageUrl != "" then inputs.downloaded else g.imageBytes
  }

  /** A finished form of a claimed task: final, dated, and otherwise different from the task only in
      the columns that describe an outcome. */
  predicate FinalFor(task: ImageGeneration, g: ImageGeneration) {
    && IsTerminal(g.status) && g.completedAt.Some?
    && g == task.(status := g.status, requestId := g.requestId, failureCode := g.failureCode,
                  imageUrl := g.imageUrl, storageKey := g.storageKey, imageBytes := g.imageBytes,
                  errorMessage := g.errorMessage, generationTime := g.generationTime,
                  completedAt := g.completedAt)
  }

  predicate IsGiven(text: Option<string>) {
    text.Some? && text.value != ""
  }

  /** The first address that is given: the reply's under its first name, under its second if the first
      is missing, the task's own, the reply's plain url, and its picture if that is an address. */
  predicate AddressFrom(p: Payload, own: string, address: string) {
    if IsGiven(p.imageUrlSnake) then address == p.imageUrlSnake.value
    else if p.imageUrlSnake == None && IsGiven(p.imageUrlCamel) then address == p.imageUrlCamel.value
    else if own != "" then address == own
    else if p.imageUrlSnake == None && IsGiven(p.url) then address == p.url.value
    else if p.image.Some? && ("http://" <= p.image.value || "https://" <= p.image.value) then address == p.image.value
    else address == ""
  }

  /** The status the reply names, in any letter case; a missing one resets it, an unknown one leaves
      what was there. */
  predicate StatusFrom(p: Payload, own: Status, status: Status) {
    if p.statusText == None then status == Pending
    else
      var text := Lower(p.statusText.value);
      if text in {"success", "succeeded", "completed", "done", "ok"} then status == Success
      else if text in {"failed", "failure", "error"} then status == Failed
      else if text in {"processing", "generating"} then status == Generating
      else if text == "queued" then status == Queued
      else if text == "pending" then status == Pending
      else if text == "cancelled" then status == Cancelled
      else if text == "timeout" then status == Timeout
      else status == own
  }

  lemma MergedStatusMeans(p: Payload, own: Status)
    ensures StatusFrom(p, own, MergedStatus(p, own))
  {
  }

  lemma MergedAddress(p: Payload, own: string)
    ensures AddressFrom(p, own, MergedImageUrl(p, own))
  {
  }

  /** A field that is missing or empty leaves what was there, except that a missing status resets it;
      of several addresses the first that is given wins, and the task's own goes before the last ones. */
  method MergeRemoteResult(p: Payload, g0: ImageGeneration) returns (g: ImageGeneration)
    ensures StatusFrom(p, g0.status, g.status) && AddressFrom(p, g0.imageUrl, g.imageUrl)
    ensures g.requestId == (if IsGiven(p.requestId) then p.requestId.value else g0.requestId)
    ensures g.errorMessage == (if IsGiven(p.errorMessage) then p.errorMessage.value else g0.errorMessage)
    ensures g.generationTime == (if p.generationTime.Some? && p.generationTime.value > 0.0
                                 then p.generationTime.value else g0.generationTime)
    ensures g == g0.(requestId := g.requestId, status := g.status, imageUrl := g.imageUrl,
                     errorMessage := g.errorMessage, generationTime := g.generationTime)
    ensures g == Merged(g0, p)
  {
    MergedAddress(p, g0.imageUrl);
    MergedStatusMeans(p, g0.status);
    g := Steps(p, g0);
  }

  method Steps(p: Payload, g0: ImageGeneration) returns (g: ImageGeneration)
    ensures g == Merged(g0, p)
  {
    g := g0;
    if OrEmpty(p.requestId) != "" {
      g := g.(requestId := p.requestId.value);
    }
    if p.statusText.Some? {
      var normalized := NormalizeTaskStatus(p.statusText.value);
      if !normalized.Unknown? {
        g := g.(status := normalized);
      }
    } else {
      g := g.(status := Pending);
    }
    if RemoteImageUrl(p) != "" {
      g := g.(imageUrl := RemoteImageUrl(p));
    }
    if OrEmpty(p.errorMessage) != "" {
      g := g.(errorMessage := p.errorMessage.value);
    }
    if p.generationTime.Some? && p.generationTime.value > 0.0 {
      g := g.(generationTime := p.generationTime.value);
    }
    if g.imageUrl == "" {
      g := g.(imageUrl := OrEmpty(if p.imageUrlSnake.Some? then p.imageUrlSnake else p.url));
    }
    if g.imageUrl == "" && p.image.Some? && IsHttpUrl(p.image.value) {
      g := g.(imageUrl := p.image.value);
    }
  }

  method PersistGeneratedImage(g0: ImageGeneration, inputs: Inputs) returns (g: ImageGeneration)
    requires StorageWorks(inputs)
    ensures !g0.status.Success? ==> g == g0
    ensures g0.status.Success? ==>
              if g0.imageBytes != "" && inputs.storage.Stored? then
                g == g0.(storageKey := inputs.storage.key, imageBytes := "",
                         imageUrl := "/api/images/" + ToText(g0.id) + "/binary")
              else
                && g.status.Failed? && g.completedAt == Some(inputs.now)
                && g.failureCode == (if g0.imageBytes == "" then "missing_image_payload"
                                     else "storage_write_failed")
                && g.imageBytes == ""
                && (g0.imageBytes != "" ==> g.storageKey == "" && g.imageUrl == "")
                && g == g0.(status := g.status, failureCode := g.failureCode, completedAt := g.completedAt,
                            errorMessage := g.errorMessage, storageKey := g.storageKey,
                            imageUrl := g.imageUrl, imageBytes := g.imageBytes)
  {
    g := g0;
    if !g.status.Success? {
      return;
    }
    if g.imageBytes == "" {
      g := FailedWith(g, "missing_image_payload", "generation succeeded but image binary is missing");
      g := g.(completedAt := Some(inputs.now));
      return;
    }
    match inputs.storage {
      case Stored(key) =>
        g := g.(storageKey := key, imageBytes := "",
                imageUrl := "/api/images/" + ToText(g.id) + "/binary");
      case StoreThrew(what) =>
        g := FailedWith(g, "storage_write_failed",
                        "generation succeeded but failed to store image: " + what);
        g := g.(completedAt := Some(inputs.now), storageKey := "", imageBytes := "", imageUrl := "");
    }
  }

  /** What becomes of a running task when the reply's status text is this and these bytes are at hand. */
  predicate SettledAs(text: string, bytes: string, storage: StorageOutcome, g: ImageGeneration) {
    if text in {"failed", "failure", "error"} then g.status == Failed
    else if bytes != "" then
      if storage.Stored? then g.status == Success
      else g.status == Failed && g.failureCode == "storage_write_failed" && g.storageKey == ""
    else if text == "cancelled" then g.status == Cancelled
    else if text == "timeout" then g.status == Timeout
    else g.status == Failed && g.failureCode == "missing_image_payload"
  }

  lemma ReplyStatus(task: ImageGeneration, reply: Reply)
    requires reply.Json? && task.status == Generating
    ensures var p := if reply.data.Some? then reply.data.value else reply.top;
            var text := if p.statusText.Some? then Lower(p.statusText.value) else "pending";
            var status := Replied(task, reply).status;
            && (status == Failed <==> text in {"failed", "failure", "error"})
            && (status == Cancelled <==> text == "cancelled")
            && (status == Timeout <==> text == "timeout")
  {
    var p := if reply.data.Some? then reply.data.value else reply.top;
    MergedStatusMeans(p, task.status);
  }

  /** Whatever the model service, the download and the store do, the result is final and dated; it
      is a success exactly when bytes arrived, the reply did not say failed and the store kept them,
      and then the image can be served.  The columns the row's claim is fenced by are untouched. */
  method Generate(task: ImageGeneration, inputs: Inputs) returns (g: ImageGeneration)
    requires StorageWorks(inputs)
    ensures FinalFor(task, g) && g.completedAt == Some(inputs.now)
    ensures g.status.Success? <==>
              && BytesAfterReply(task, inputs) != ""
              && !Replied(task, inputs.reply).status.Failed?
              && inputs.storage.Stored?
    ensures g.status.Success? ==>
              && CanReturnBinary(g.status, g.storageKey) && g.storageKey == inputs.storage.key && g.storageKey != ""
              && g.failureCode == "" && g.errorMessage == "" && g.imageBytes == ""
              && g.imageUrl == "/api/images/" + ToText(task.id) + "/binary"
    ensures !inputs.reply.Json? ==>
              && g.status == Failed
              && (g.failureCode, g.errorMessage) ==
                   match inputs.reply
                   case StdException(what) => ("python_service_exception", "python service exception: " + what)
                   case OtherException =>
                     ("python_service_unknown_exception", "python service unknown exception")
                   case HttpFailure(message) => ("python_service_request_failed", message)
                   case EmptyBody => ("python_service_empty_response", "python service returned empty response")
                   case _ => ("python_service_invalid_json", "python service returned invalid json")
    ensures inputs.reply.Json? && task.status == Generating ==>
              var p := if inputs.reply.data.Some? then inputs.reply.data.value else inputs.reply.top;
              var text := if p.statusText.Some? then Lower(p.statusText.value) else "pending";
              SettledAs(text, BytesAfterReply(task, inputs), inputs.storage, g)
    ensures g.status.Cancelled? || g.status.Timeout? ==>
              g.status == Replied(task, inputs.reply).status && BytesAfterReply(task, inputs) == ""
  {
    if inputs.reply.Json? && task.status == Generating {
      ReplyStatus(task, inputs.reply);
    }
    g := task;
    match inputs.reply {
      case StdException(what) =>
        g := FailedWith(g, "python_service_exception", "python service exception: " + what);
      case OtherException =>
        g := FailedWith(g, "python_service_unknown_exception", "python service unknown exception");
      case HttpFailure(message) =>
        g := FailedWith(g, "python_service_request_failed", message);
      case EmptyBody =>
        g := FailedWith(g, "python_service_empty_response", "python service returned empty response");
      case InvalidJson =>
        g := FailedWith(g, "python_service_invalid_json", "python service returned invalid json");
      case Json(top, data) =>
        g := MergeRemoteResult(if data.Some? then data.value else top, g);
    }
    assert g == Replied(task, inputs.reply);
    g := Conclude(g, inputs);
  }

  /** From the reply on: fetch, judge, date and store. */
  method Conclude(replied: ImageGeneration, inputs: Inputs) returns (g: ImageGeneration)
    requires StorageWorks(inputs)
    ensures FinalFor(replied, g) && g.completedAt == Some(inputs.now)
    ensures var bytes := if replied.imageUrl != "" then inputs.downloaded else replied.imageBytes;
            if replied.status == Failed then
              g.status == Failed && g.failureCode == replied.failureCode && g.errorMessage == replied.errorMessage
            else if bytes != "" then
              if inputs.storage.Stored? then
                && g.status == Success && g.storageKey == inputs.storage.key && g.failureCode == ""
                && g.errorMessage == "" && g.imageBytes == ""
                && g.imageUrl == "/api/images/" + ToText(replied.id) + "/binary"
              else g.status == Failed && g.failureCode == "storage_write_failed" && g.storageKey == ""
            else if replied.status in {Cancelled, Timeout} then g.status == replied.status
            else g.status == Failed && g.failureCode == "missing_image_payload"
    ensures replied.status == Failed ==>
              g.imageUrl == (if "/" <= replied.imageUrl && inputs.serviceUrl != ""
                             then inputs.serviceUrl + replied.imageUrl else replied.imageUrl)
  {
    assert "/" <= replied.imageUrl ==> replied.imageUrl[0] == '/' && !IsHttpUrl(replied.imageUrl);
    g := replied;
    if g.imageUrl != "" {
      g := g.(imageUrl := AbsoluteUrl(g.imageUrl, inputs.serviceUrl), imageBytes := inputs.downloaded);
    }
    if g.imageBytes != "" && !g.status.Failed? {
      g := g.(status := Success, failureCode := "", errorMessage := "");
    }
    if !IsTerminal(g.status) {
      g := g.(status := Failed, failureCode := "missing_image_payload",
              errorMessage := if g.errorMessage == "" then "model result did not include image data"
                              else g.errorMessage);
    }
    if IsTerminal(g.status) {
      g := g.(completedAt := Some(inputs.now));
    }
    g := PersistGeneratedImage(g, inputs);
  }
}
