/**
 * The snapshot archive as the recorder writes it and the restorer reads it
 * (the JSON object built at src/record.js:91 and filled at src/record.js:167-173).
 */
module Archive {
  import opened Wrappers

  /** One captured response, stored under its request key. */
  datatype Entry = Entry(
    body: Option<string>,              // base64 text; a hand-written archive may lack it
    headers: map<string, string>,      // lower-case names from the allow-list
    requestUrl: string,                // `request_url`, the normalised request URL
    responseUrl: string,               // `response_url`, the URL the response came from
    status: int)

  /** The archive root. `status` is read by the restorer but never written by the recorder. */
  datatype Snapshot = Snapshot(
    url: string,
    baseUrl: Option<string>,
    html: string,
    status: Option<int>,
    responses: map<string, Entry>)

  /** The stored content-type header, if any. */
  function ContentType(e: Entry): Option<string>
  {
    if "content-type" in e.headers then Some(e.headers["content-type"]) else None
  }
}
