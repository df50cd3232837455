/**
 * Spring AI's Document: text content plus a metadata map. Metadata values are
 * Java objects; the pipeline stores strings, Long ids and timestamps in them.
 */
module Documents {
  import JString

  datatype MetaValue = Str(text: string) | Long(number: int) | Timestamp(ticks: int)

  datatype Document = Document(content: string, metadata: map<string, MetaValue>)

  /** `value.toString()`; timestamps are abstract clock ticks here. */
  function Render(v: MetaValue): string {
    match v
    case Str(t) => t
    case Long(n) => JString.DecimalString(n)
    case Timestamp(t) => JString.DecimalString(t)
  }

  /** `metadata.getOrDefault("filename", "unknown").toString()`. */
  function FileNameOf(d: Document): (r: string)
    ensures "filename" !in d.metadata ==> r == "unknown"
    ensures "filename" in d.metadata && d.metadata["filename"].Str? ==> r == d.metadata["filename"].text
  {
    if "filename" in d.metadata then Render(d.metadata["filename"]) else "unknown"
  }
}
