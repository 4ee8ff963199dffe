/** __getStatusForm: the form posted to the train-status endpoint. */
module StatusForm {
  import opened Outcomes
  import opened Numerals
  import opened Calendar
  import opened Values

  type Form = map<string, string>

  const FormKeys: set<string> := {
    "action", "radioSelect", "wdf_trainNumber",
    "unStCode_wdf_destination", "wdf_destination", "departdisplay_train_number"
  }

  /** What a form built for this query holds, field by field. */
  predicate DescribesQuery(form: Form, arrival: bool, trainNumber: Value,
                           stationCode: string, stationLoc: string, date: CalendarDate)
    requires IsInstanceInt(trainNumber)
  {
    && form.Keys == FormKeys
    && form["action"] == "searchTrainStatus"
    && form["radioSelect"] == (if arrival then "arrivalTime" else "departTime")
    && form["wdf_trainNumber"] == IntText(trainNumber)
    && form["unStCode_wdf_destination"] == stationCode
    && form["wdf_destination"] == stationLoc
    && form["departdisplay_train_number"] == UsDateText(date)
  }

  /**
   * Builds the form by successive key assignments. Its one caller has already checked that
   * trainNumber passes isinstance(int).
   */
  method BuildStatusForm(arrival: bool, trainNumber: Value, stationCode: string,
                         stationLoc: string, date: CalendarDate) returns (form: Form)
    requires IsInstanceInt(trainNumber)
    ensures DescribesQuery(form, arrival, trainNumber, stationCode, stationLoc, date)
    ensures form["radioSelect"] == "arrivalTime" <==> arrival
    ensures trainNumber.Int? ==> DecimalValue(form["wdf_trainNumber"]) == Some(trainNumber.i)
    ensures var d := form["departdisplay_train_number"];
      |d| == 10 && d[2] == '/' && d[5] == '/' && UsDateValue(d) == Some(date)
  {
    form := map["action" := "searchTrainStatus"];
    if arrival {
      form := form["radioSelect" := "arrivalTime"];
    } else {
      form := form["radioSelect" := "departTime"];
    }
    form := form["wdf_trainNumber" := IntText(trainNumber)];
    form := form["unStCode_wdf_destination" := stationCode];
    form := form["wdf_destination" := stationLoc];
    form := form["departdisplay_train_number" := UsDateText(date)];
    UsDateRoundTrip(date);
  }
}
