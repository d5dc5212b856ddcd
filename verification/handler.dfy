/** The handler's sequence for one stored document: read the object, build
    the extraction request from the configured processor, the document bytes
    and the resolved MIME type, extract the text, and write it under the
    derived key. Storage and the extraction service are parameters: the
    read is a function from bucket and key to the object's chunks, and the
    extraction and the write are functions from request to outcome. The first failure aborts the invocation. */
module Handler {
  import opened Wrappers
  import opened Chunks
  import MimeType
  import OutputKey
  import Processor

  /** The environment values the handler reads, each possibly unset. */
  datatype Config = Config(projectId: Option<string>, location: Option<string>, processorId: Option<string>)

  /** The extraction request: the processor's name and the raw document.
      The content is kept as bytes; its base64 text is not modelled. */
  datatype ProcessRequest = ProcessRequest(name: string, content: seq<Byte>, mimeType: string)

  /** The object written back to storage. */
  datatype PutObject = PutObject(bucket: string, key: string, body: string, contentType: string)

  /** The handler's reply on success. */
  datatype Response = Response(statusCode: int, written: PutObject)

  const TextPlain := "text/plain"

  /** The request sent for a document stored under `key` whose body arrived
      as `chunks`: the configured processor, every byte of the body in order,
      and the type resolved from the key. */
  function BuildRequest(config: Config, key: string, chunks: seq<seq<Byte>>): (req: ProcessRequest)
    ensures |req.content| == TotalLength(chunks)
    ensures PlacesChunks(chunks, req.content)
    ensures req.mimeType == MimeType.DetermineMimeType(key)
    ensures req.name == Processor.ProcessorNameFromConfig(config.projectId, config.location, config.processorId)
  {
    ConcatIsLayout(chunks, Concat(chunks));
    ProcessRequest(
      Processor.ProcessorNameFromConfig(config.projectId, config.location, config.processorId),
      Concat(chunks),
      MimeType.DetermineMimeType(key))
  }

  /** The object the handler writes for text extracted from `key`: plain
      text in the same bucket, under the derived key, which is never the
      source key itself. */
  function Written(bucket: string, key: string, text: string): (put: PutObject)
    ensures put.bucket == bucket && put.body == text && put.contentType == TextPlain
    ensures |put.key| >= |OutputKey.Prefix| + |OutputKey.Suffix|
    ensures put.key[..|OutputKey.Prefix|] == OutputKey.Prefix
    ensures put.key[|put.key| - |OutputKey.Suffix|..] == OutputKey.Suffix
    ensures put.key != key
  {
    OutputKey.OutputKeyDiffers(key);
    PutObject(bucket, OutputKey.DeriveOutputKey(key), text, TextPlain)
  }

  /** One invocation, from the read onwards. The object read is the one
      named by `bucket` and `key`. It succeeds exactly when the
      read, the extraction and the write all succeed. The first step that
      fails ends it with that step's own error: a failed read means nothing is
      extracted or written, and a failed extraction means nothing is written.
      On success the extracted text has been written as plain text to the
      same bucket under the derived key. */
  function Handle(
    config: Config, bucket: string, key: string,
    read: (string, string) -> Result<seq<seq<Byte>>, string>,
    extract: ProcessRequest -> Result<string, string>,
    store: PutObject -> Result<(), string>
  ): (r: Result<Response, string>)
    ensures read(bucket, key).Failure? ==> r == Failure(read(bucket, key).error)
    ensures read(bucket, key).Success? && extract(BuildRequest(config, key, read(bucket, key).value)).Failure? ==>
      r == Failure(extract(BuildRequest(config, key, read(bucket, key).value)).error)
    ensures read(bucket, key).Success? ==>
      var text := extract(BuildRequest(config, key, read(bucket, key).value));
      text.Success? ==>
      var put := Written(bucket, key, text.value);
      store(put).Failure? ==> r == Failure(store(put).error)
    ensures r.Success? <==>
      && read(bucket, key).Success?
      && var text := extract(BuildRequest(config, key, read(bucket, key).value));
      && text.Success?
      && store(Written(bucket, key, text.value)).Success?
    ensures r.Success? ==>
      var put := r.value.written;
      && r.value.statusCode == 200
      && put.bucket == bucket
      && put.key == OutputKey.DeriveOutputKey(key)
      && put.body == extract(BuildRequest(config, key, read(bucket, key).value)).value
      && put.contentType == TextPlain
  {
    var chunks :- read(bucket, key);
    var request := BuildRequest(config, key, chunks);
    var text :- extract(request);
    var put := Written(bucket, key, text);
    var _ :- store(put);
    Success(Response(200, put))
  }

  /** An extraction service that answers `Hello` for PDF documents. */
  function HelloForPdf(req: ProcessRequest): Result<string, string> {
    if req.mimeType == MimeType.Pdf then Success("Hello") else Failure("unsupported")
  }

  /** A store that accepts every write. */
  function AcceptAll(put: PutObject): Result<(), string> {
    Success(())
  }

  /** `invoice.pdf` in bucket `docs` is sent as a PDF, and its text is
      written to `processed_text/invoice.txt` in the same bucket. */
  lemma InvoiceExample(config: Config, chunks: seq<seq<Byte>>)
    ensures Handle(config, "docs", "invoice.pdf", (b, k) => Success(chunks), HelloForPdf, AcceptAll)
      == Success(Response(200, PutObject("docs", "processed_text/invoice.txt", "Hello", TextPlain)))
  {
    MimeType.InvoiceExample();
    OutputKey.InvoiceExample();
    var req := BuildRequest(config, "invoice.pdf", chunks);
    assert HelloForPdf(req) == Success("Hello");
  }

  /** When the object cannot be read the invocation fails with that error,
      whatever the services would have done. */
  lemma FetchFailureExample(config: Config, key: string, err: string,
                            extract: ProcessRequest -> Result<string, string>,
                            store: PutObject -> Result<(), string>)
    ensures Handle(config, "docs", key, (b, k) => Failure(err), extract, store) == Failure(err)
  {
  }
}
