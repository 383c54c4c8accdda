/** The exceptions the NestJS server's request handlers end in. */
module ServerErrors {

  datatype Failure =
    /** `BadRequestException` (HTTP 400) with its message. */
    | BadRequest(message: string)
    /** The `SyntaxError` that `JSON.parse` throws on text that is not JSON. */
    | SyntaxError
    /** The `TypeError` of reading a property of `null`. */
    | TypeError
    /** A rejected call to a service this server depends on (rag-engine, Chroma). */
    | Upstream(cause: string)
}
