/** The Result<T> envelope every handler returns (NHibernateDemo.Core.Shared). */
module Shared {
  import opened Wrappers

  /**
   * Data, IsSuccess and Message. `data == None` stands for the C# default of
   * T: null for a reference type, false for bool.
   */
  datatype Result<T> = Result(data: Option<T>, isSuccess: bool, message: string)

  /** Result<T>.Success(data): the payload, IsSuccess set, an empty Message. */
  function Success<T>(data: T): Result<T> {
    Result(Some(data), true, "")
  }

  /** Result<T>.Failure(message): no payload, IsSuccess cleared. */
  function Failure<T>(message: string): Result<T> {
    Result(None, false, message)
  }

  /** The Data of a Result<bool> as C# reads it: default(bool) is false. */
  function Flag(r: Result<bool>): bool {
    r.data.GetOr(false)
  }

  /** The envelope invariant: a failed result carries no payload. */
  predicate WellFormed<T>(r: Result<T>) {
    !r.isSuccess ==> r.data == None
  }
}
