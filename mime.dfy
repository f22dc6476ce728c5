/** The part of Python's `email` package the digest relies on: a MIME
    message object whose header list and payload are updated in place and
    shared by reference between the function that builds it and the one
    that sends it. */
module Mime {

  datatype Header = Header(name: string, value: string)

  /** A `MIMEText(body, 'html')` part. */
  datatype Part = HtmlText(body: string)

  /** What `as_string()` serialises at one moment: the header list in order
      and the attached parts. */
  datatype Snapshot = Snapshot(headers: seq<Header>, parts: seq<Part>)

  /** The headers `MIMEMultipart('related')` starts with. */
  const MultipartRelatedHeaders: seq<Header> :=
    [Header("Content-Type", "multipart/related"), Header("MIME-Version", "1.0")]

  /** The values of the headers called `name`, in header-list order: the
      reading of the header list the contracts are stated in. */
  function Values(hs: seq<Header>, name: string): (r: seq<string>)
    ensures |r| <= |hs|
    decreases |hs|
  {
    if hs == [] then []
    else (if hs[0].name == name then [hs[0].value] else []) + Values(hs[1..], name)
  }

  /** `Values` of a concatenated header list. */
  lemma {:induction false} ValuesAppend(a: seq<Header>, b: seq<Header>, name: string)
    ensures Values(a + b, name) == Values(a, name) + Values(b, name)
    decreases |a|
  {
    if a == [] {
      assert a + b == b;
    } else {
      assert (a + b)[0] == a[0];
      assert (a + b)[1..] == a[1..] + b;
      var head := if a[0].name == name then [a[0].value] else [];
      assert Values(a + b, name) == head + Values(a[1..] + b, name);
      assert Values(a, name) == head + Values(a[1..], name);
      ValuesAppend(a[1..], b, name);
    }
  }

  /** A message being built or sent. Python's `message[name] = value` does
      not replace an existing header: it appends one more. */
  class Message {
    var headers: seq<Header>
    var parts: seq<Part>

    /** `MIMEMultipart('related')`. */
    constructor MultipartRelated()
      ensures headers == MultipartRelatedHeaders && parts == []
    {
      headers := MultipartRelatedHeaders;
      parts := [];
    }

    /** `message[name] = value`. */
    method SetItem(name: string, value: string)
      modifies this
      ensures headers == old(headers) + [Header(name, value)]
      ensures parts == old(parts)
    {
      headers := headers + [Header(name, value)];
    }

    /** `message.attach(part)`. */
    method Attach(part: Part)
      modifies this
      ensures parts == old(parts) + [part]
      ensures headers == old(headers)
    {
      parts := parts + [part];
    }

    /** `message.as_string()`, kept abstract as the headers and parts it
        serialises at the moment of the call. The boundary parameter that
        the first serialisation adds to Content-Type is not modelled. */
    function AsString(): Snapshot
      reads this
    {
      Snapshot(headers, parts)
    }
  }
}
