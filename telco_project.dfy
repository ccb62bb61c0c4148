/**
 * The project script's own copy of the TotalCharges imputation. It behaves
 * exactly like the one in the imputation helpers, so it is modelled by
 * delegating to it.
 */
module TelcoProject {
  import opened Frames
  import ImputationHandling

  /**
   * `impute_total_charges(data)`: each missing TotalCharges takes the same
   * row's MonthlyCharges, in the caller's table, which is also returned.
   */
  method ImputeTotalCharges(data: DataFrame) returns (r: Result<DataFrame, Error>)
    requires data.Snapshot().Valid()
    modifies data
    ensures r.Success? <==> ImputationHandling.FillTotalCharges(old(data.Snapshot())).Success?
    ensures r.Failure? ==> r.error == ImputationHandling.FillTotalCharges(old(data.Snapshot())).error
    ensures r.Failure? ==> data.Snapshot() == old(data.Snapshot())
    ensures r.Success? ==> r.value == data && data.Snapshot() == ImputationHandling.FillTotalCharges(old(data.Snapshot())).value
  {
    r := ImputationHandling.ImputeTotalCharges(data);
  }
}
