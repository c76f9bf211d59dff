/** The `esp_err_t` results that the core distinguishes. */
module Esp {

  /** `ESP_OK`, `ESP_ERR_NVS_NOT_FOUND`, or any other error code. */
  datatype Status = Ok | NotFound | Failure(code: int)

  /** The outcome the environment injects into one primitive call: `Ok` means "no fault". */
  type Fault = Status

  /** The injected fault for step `i` of a sequence of steps; steps past the end see no fault. */
  function FaultAt(faults: seq<Fault>, i: nat): (f: Fault)
    ensures i < |faults| ==> f == faults[i]
    ensures i >= |faults| ==> f == Ok
  {
    if i < |faults| then faults[i] else Ok
  }
}
