/** The error the handlers raise to the client. */
module Http {

  /** FastAPI's `HTTPException(status_code, detail)`. */
  datatype HttpException = HttpException(statusCode: nat, detail: string)
}
