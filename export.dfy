/** `download_text`: maps the chosen format to what the download button
    offers. JSON string escaping is foreign and enters the
    model as a function giving the escaped characters between the quotes. */
module Export {
  import opened Common

  /** The arguments of one `st.download_button` call. */
  datatype Download = Download(buttonLabel: string, data: string, fileName: string, mime: string)

  const TextFormat: string := "Text File"
  const JsonFormat: string := "JSON"

  /** `json.dumps({"extracted_text": text})` with the default separators is this
      opening, the escaped text, and the closing. */
  const EnvelopeOpen: string := "{\"extracted_text\": \""
  const EnvelopeClose: string := "\"}"

  function JsonEnvelope(text: string, escape: string -> string): string
  {
    EnvelopeOpen + escape(text) + EnvelopeClose
  }

  /** Reads a payload back: if it has the envelope's opening and closing, the
      unescaped characters between them; the inverse `json.loads` would give
      for the one key. */
  function ReadEnvelope(payload: string, unescape: string -> string): Option<string>
  {
    if |payload| >= |EnvelopeOpen| + |EnvelopeClose| &&
       payload[..|EnvelopeOpen|] == EnvelopeOpen &&
       payload[|payload| - |EnvelopeClose|..] == EnvelopeClose
    then Some(unescape(payload[|EnvelopeOpen|..|payload| - |EnvelopeClose|]))
    else None
  }

  /** `download_text`: the download offered for a format, or none. */
  function DownloadText(text: string, format: string, escape: string -> string): Option<Download>
  {
    if format == TextFormat then
      Some(Download("Download Text File", text, "extracted_text.txt", "text/plain"))
    else if format == JsonFormat then
      Some(Download("Download JSON File", JsonEnvelope(text, escape), "extracted_text.json", "application/json"))
    else None
  }

  /** The format mapping: "Text File" offers the text verbatim as
      extracted_text.txt (text/plain); "JSON" offers the one-key envelope as
      extracted_text.json (application/json); any other format offers nothing. */
  lemma DownloadTextFormats(text: string, format: string, escape: string -> string)
    ensures format == TextFormat ==>
              DownloadText(text, format, escape).Some? &&
              DownloadText(text, format, escape).value.buttonLabel == "Download Text File" &&
              DownloadText(text, format, escape).value.data == text &&
              DownloadText(text, format, escape).value.fileName == "extracted_text.txt" &&
              DownloadText(text, format, escape).value.mime == "text/plain"
    ensures format == JsonFormat ==>
              DownloadText(text, format, escape).Some? &&
              DownloadText(text, format, escape).value.buttonLabel == "Download JSON File" &&
              DownloadText(text, format, escape).value.data == JsonEnvelope(text, escape) &&
              DownloadText(text, format, escape).value.fileName == "extracted_text.json" &&
              DownloadText(text, format, escape).value.mime == "application/json"
    ensures DownloadText(text, format, escape).None? <==> format != TextFormat && format != JsonFormat
  {
  }

  /** Reading the JSON payload back yields the text, for any escaping that its
      unescaping undoes. */
  lemma JsonEnvelopeRoundTrip(text: string, escape: string -> string, unescape: string -> string)
    requires forall t :: unescape(escape(t)) == t
    ensures ReadEnvelope(JsonEnvelope(text, escape), unescape) == Some(text)
  {
  }

  /** Distinct texts give distinct JSON payloads for any escaping that can be
      undone, so the payload determines the text. */
  lemma JsonEnvelopeInjective(a: string, b: string, escape: string -> string, unescape: string -> string)
    requires forall t :: unescape(escape(t)) == t
    requires a != b
    ensures JsonEnvelope(a, escape) != JsonEnvelope(b, escape)
  {
    JsonEnvelopeRoundTrip(a, escape, unescape);
    JsonEnvelopeRoundTrip(b, escape, unescape);
  }

  /** "JSON" with the identity escaping on "abc" gives exactly
      {"extracted_text": "abc"}. */
  lemma JsonEnvelopeExample(escape: string -> string)
    requires escape("abc") == "abc"
    ensures DownloadText("abc", JsonFormat, escape).value.data == "{\"extracted_text\": \"abc\"}"
  {
  }
}
