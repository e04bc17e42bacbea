/** The JSON records exchanged with the embedding server (model/model.go and
    the identical private records of engine/llama.go). Float32 components are
    an opaque element type `F`: nothing here does arithmetic on them. */
module Model {
  import opened Common

  /** Body of `POST /v1/embeddings`. */
  datatype EmbedRequest = EmbedRequest(input: string)

  datatype Usage = Usage(promptTokens: int, totalTokens: int)

  /** One entry of the response's `data` list. */
  datatype EmbedDatum<F> = EmbedDatum(embedding: seq<F>, index: int, object: string)

  /** The decoded response of `POST /v1/embeddings`. */
  datatype EmbedResponse<F> = EmbedResponse(model: string, object: string, usage: Usage, data: seq<EmbedDatum<F>>)

  /** The HTTP exchange with the embedding server: given the URL and the request,
      the decoded response, or the error of whichever of encoding, building the
      request, sending it, reading the body or decoding it failed first. */
  type EmbedFetch<F> = (string, EmbedRequest) -> Result<EmbedResponse<F>>
}
