/**
 * The protocol constants of gevent_fastcgi/const.py that the codec uses,
 * and the two value types every layer shares: the decoded record header
 * (section 3.3 of the FastCGI Specification) and a record as base.py
 * passes it around (type, content, request id).
 */
module Protocol {
  import opened Bytes

  const FcgiVersion: byte := 1
  const FcgiHeaderLen: nat := 8
  const FcgiBeginRequest: byte := 1
  const FcgiAbortRequest: byte := 2
  const FcgiEndRequest: byte := 3
  const FcgiParams: byte := 4
  const FcgiStdin: byte := 5
  const FcgiStdout: byte := 6
  const FcgiStderr: byte := 7
  const FcgiData: byte := 8
  const FcgiGetValues: byte := 9
  const FcgiGetValuesResult: byte := 10
  const FcgiUnknownType: byte := 11
  const FcgiNullRequestId: u16 := 0

  /**
   * FCGI_MAX_CONTENT_LEN, the most content one record may carry.  It is
   * bounded by the 16-bit content length field of the header; const.py in
   * this version of the package does not define FCGI_MAX_CONTENT_LEN, and the legacy module splits output at
   * 0xFFFF, so that value is used.
   */
  const MaxContentLen: nat := 0xFFFF

  /** An 8-byte record header as (version, type, request id, content length, padding); the reserved byte is not surfaced. */
  datatype Header = Header(version: byte, recordType: byte, requestId: u16, contentLength: u16, paddingLength: byte)

  /** base.Record: namedtuple('Record', ('type', 'content', 'request_id')). */
  datatype Record = Record(recordType: byte, content: bytes, requestId: u16)
}
