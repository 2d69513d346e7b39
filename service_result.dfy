/** `sggc.models.service.Result`: the envelope a service method returns, with
    its two concrete forms `SuccessResult` and `ErrorResult`. */
module ServiceResult {
  import opened JavaLang

  /** `ErrorType` is an enum whose source is not part of this model; a value
      stands for one of its constants by name. */
  datatype ErrorType = ErrorType(name: string)

  /** `service.error.Error`: a kind and a message. */
  datatype Error = Error(kind: ErrorType, message: string)

  /** `Result<T>`: the fields exactly as the (abstract) class's constructor stores
      them; `data` and `errorList` are nullable. */
  datatype Result<T> = Result(success: bool, data: Option<T>, errorList: Option<seq<Error>>)

  /** `new SuccessResult<>(data)`: success, the data (null if null was passed),
      and a null error list, not an empty one. */
  function SuccessResult<T>(data: Option<T>): (r: Result<T>)
    ensures r.success && r.data == data && r.errorList.None?
  {
    Result(true, data, None)
  }

  /** `new ErrorResult<>(errorList)`: failure, null data, the given list. */
  function ErrorResult<T>(errorList: Option<seq<Error>>): (r: Result<T>)
    ensures !r.success && r.data.None? && r.errorList == errorList
  {
    Result(false, None, errorList)
  }

  /** What a result built by one of the two concrete classes looks like. */
  predicate IsConcrete<T>(r: Result<T>) {
    if r.success then r.errorList.None? else r.data.None?
  }

  /** The two constructors produce exactly the concrete results, and `success`
      tells which one built a result. */
  lemma ConcreteResultsComeFromConstructors<T>(r: Result<T>)
    ensures IsConcrete(r) <==> r == SuccessResult(r.data) || r == ErrorResult(r.errorList)
    ensures IsConcrete(r) && r.success ==> r == SuccessResult(r.data)
    ensures IsConcrete(r) && !r.success ==> r == ErrorResult(r.errorList)
  {
  }
}
