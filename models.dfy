/** The decoded device state of custom_components/iqos/api/models.py. */
module Models {
  import opened Wrappers

  /**
   * The frozen dataclass `IQOSBLEState`. As a Dafny datatype it is an immutable
   * value with field-wise equality: the device replaces it as a whole and never
   * updates one field of it. `pen_discharged` is annotated `bool` in the source
   * but the decoder stores `None` in it when the frame carries no pen byte, so it
   * is an `Option<bool>` here.
   */
  datatype IqosBleState = IqosBleState(caseBattery: int, penDischarged: Option<bool>, isOpen: bool)

  /** `IQOSBLEState()` with every field at its declared default. */
  function DefaultState(): (s: IqosBleState)
    ensures s.caseBattery == 0
    ensures s.penDischarged == Some(true)
    ensures !s.isOpen
  {
    IqosBleState(0, Some(true), false)
  }
}
