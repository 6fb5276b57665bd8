/** Whether a claimed task may go to the model service, must wait, or has waited too often. */
module ModelHealthGate {
  import opened TaskStatus

  const MAX_MODEL_HEALTH_ATTEMPTS: int := 10
  const UNHEALTHY_BACKOFF_SECONDS: int := 5
  const LOADING_BACKOFF_SECONDS: int := 30
  const MODEL_SERVICE_UNAVAILABLE := "model_service_unavailable"

  datatype Health = Health(
    status: string,
    activeKind: string,
    activeGenerations: int,
    maxConcurrentGenerations: int,
    detail: string)

  datatype Decision =
    | Proceed
    | Defer(backoffSeconds: int, failureCode: string, message: string)
    | Fail(failureCode: string, message: string)

  predicate HasExceededAttemptBudget(retryCount: int) {
    retryCount >= MAX_MODEL_HEALTH_ATTEMPTS - 1
  }

  function HealthMessage(health: Health, reason: string): string {
    if health.detail != "" then reason + ": " + health.detail else reason
  }

  function DeferOrFail(health: Health, retryCount: int, backoffSeconds: int, reason: string): Decision {
    if HasExceededAttemptBudget(retryCount) then
      Fail(MODEL_SERVICE_UNAVAILABLE, HealthMessage(health, "model service unavailable"))
    else
      Defer(backoffSeconds, MODEL_SERVICE_UNAVAILABLE, HealthMessage(health, reason))
  }

  predicate BusyGenerationConflicts(health: Health) {
    var kind := Lower(health.activeKind);
    if kind == "" || kind == "none" then false
    else health.maxConcurrentGenerations > 0 ==>
           health.activeGenerations >= health.maxConcurrentGenerations
  }

  function DecideForGenerate(health: Health, retryCount: int): Decision {
    var status := Lower(health.status);
    if status in {"healthy", "ok", "success"} then Proceed
    else if status == "loading" then
      DeferOrFail(health, retryCount, LOADING_BACKOFF_SECONDS, "model service is loading")
    else if status == "busy" then
      if !BusyGenerationConflicts(health) then Proceed
      else DeferOrFail(health, retryCount, UNHEALTHY_BACKOFF_SECONDS, "model service is busy")
    else DeferOrFail(health, retryCount, UNHEALTHY_BACKOFF_SECONDS, "model service is unhealthy")
  }

  /** The decision in terms of what the service reports and how often the task was retried. */
  lemma DecisionTable(health: Health, retryCount: int)
    ensures var d := DecideForGenerate(health, retryCount);
            && (d.Proceed? <==>
                  || Lower(health.status) in {"healthy", "ok", "success"}
                  || (Lower(health.status) == "busy" &&
                      (|| Lower(health.activeKind) in {"", "none"}
                       || (health.maxConcurrentGenerations > 0
                           && health.activeGenerations < health.maxConcurrentGenerations))))
            && (d.Defer? <==> !d.Proceed? && retryCount <= 8)
            && (d.Defer? ==> d.backoffSeconds == if Lower(health.status) == "loading" then 30 else 5)
            && (!d.Proceed? ==>
                  && d.failureCode == "model_service_unavailable"
                  && d.message == (if retryCount >= 9 then "model service unavailable"
                                   else if Lower(health.status) == "loading" then "model service is loading"
                                   else if Lower(health.status) == "busy" then "model service is busy"
                                   else "model service is unhealthy")
                                  + (if health.detail == "" then "" else ": " + health.detail))
  {
  }

  /** Whether the gate opens depends on the health report alone; once it is shut, whether the task
      waits or fails depends on the retry count alone, and the two budgets meet at nine. */
  lemma GateSplitsOnRetryCount(health: Health, early: int, late: int)
    requires early < MAX_MODEL_HEALTH_ATTEMPTS - 1 <= late
    ensures DecideForGenerate(health, early).Proceed? <==> DecideForGenerate(health, late).Proceed?
    ensures !DecideForGenerate(health, early).Fail?
    ensures !DecideForGenerate(health, late).Defer?
    ensures DecideForGenerate(health, early).Defer? <==> DecideForGenerate(health, late).Fail?
  {
  }
}
