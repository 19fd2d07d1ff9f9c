/** The responses that handlers build (`ResponseBuilder`). */
module ResponseBuilder {
  import opened EntityStoreValidation

  datatype ResponseData = ResponseData(statusCode: string, headers: seq<string>, body: string)

  function FormatResponse(statusCode: string, contentType: string, body: string): ResponseData {
    ResponseData(statusCode,
                 ["Content-Type: " + contentType, "Content-Length: " + Decimal(|body|), "Connection: close"],
                 body)
  }

  function Ok(body: string, contentType: string): ResponseData {
    FormatResponse("200 OK", contentType, body)
  }

  function NotFound(message: string): ResponseData {
    FormatResponse("404 Not Found", "text/plain", message)
  }

  function BadRequest(message: string): ResponseData {
    FormatResponse("400 Bad Request", "text/plain", message)
  }

  function InternalServerError(message: string): ResponseData {
    FormatResponse("500 Internal Server Error", "text/plain", message)
  }

  function MethodNotAllowed(message: string): ResponseData {
    FormatResponse("405 Method Not Allowed", "text/plain", message)
  }

  predicate IsOk(r: ResponseData) {
    r.statusCode == "200 OK"
  }
}
