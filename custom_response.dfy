/** The envelope every reply body is wrapped in. */
module Responses {
  import opened Wrappers

  datatype CustomResponse<T> = CustomResponse(
    success: bool,
    message: Option<string>,
    data: Nullable<T>,
    status: int,
    errorCode: Option<string>,
    errors: Option<seq<string>>)

  /** The status a response gets when the caller passes none. */
  const DefaultStatus := 200

  /**
   * `new CustomResponse(message, data, status, errorCode, errors)`: an omitted
   * status is 200, and the response is a success exactly when its status is
   * below 400; every argument is kept as given.
   */
  function MakeCustomResponse<T>(message: Option<string>, data: Nullable<T>, status: Option<int>,
                                 errorCode: Option<string>, errors: Option<seq<string>>): (r: CustomResponse<T>)
    ensures r.status == status.GetOr(DefaultStatus)
    ensures r.success <==> r.status < 400
    ensures r.message == message && r.data == data && r.errorCode == errorCode && r.errors == errors
  {
    var s := status.GetOr(DefaultStatus);
    CustomResponse(s < 400, message, data, s, errorCode, errors)
  }

  /** A response built without a status is a success. */
  lemma DefaultIsSuccess<T>(message: Option<string>, data: Nullable<T>, errorCode: Option<string>,
                            errors: Option<seq<string>>)
    ensures var r := MakeCustomResponse(message, data, None, errorCode, errors);
            r.success && r.status == 200
  {
  }
}
