/** `Turbine`: the two ids of a turbine, the one its forecasts use and the
    one its SCADA observations use. */
module Turbines {
  datatype Turbine = Turbine(ReferenceId: int, ScadaId: int)
}
