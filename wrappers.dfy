/** Optional values and results, used where the services return None or raise. */
module Wrappers {

  datatype Option<+T> = None | Some(value: T)

  datatype Result<+R, +E> = Success(value: R) | Failure(error: E)
}

/** An HTTP error response as FastAPI builds it from an HTTPException. */
module Http {

  datatype HttpError = HttpError(status: nat, detail: string, headers: map<string, string>)
}
