/** What a completed HTTP request hands back to a resolver. The requests themselves,
    redirect following included, are inputs of the model: every resolver takes the
    network as a function from the URL it requests to the response it gets. */
module Http {

  /** The status code (0 when the request could not be made), the final URL after
      redirects, the Content-Type header ("" when absent) and the body. */
  datatype Response = Response(status: int, url: string, contentType: string, text: string)

  const HTTP_OK := 200
}
