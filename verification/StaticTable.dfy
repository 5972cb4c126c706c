/** The static table of Appendix A of RFC 7541. */
module StaticTable {
  import opened Bits
  import opened DynamicTable

  function Ascii(s: string): (b: seq<byte>)
    ensures |b| == |s|
    ensures forall i :: 0 <= i < |s| ==> b[i] == s[i] as int % 256
  {
    seq(|s|, i requires 0 <= i < |s| => s[i] as int % 256)
  }

  const STATIC_ENTRIES: nat := 61

  function Field(name: string, value: string): Entry {
    Entry(Ascii(name), Ascii(value))
  }

  /** The entries, counted from zero; their HPACK indices count from one. */
  function StaticAt(i: nat): Entry
    requires i < STATIC_ENTRIES
  {
    if i == 0 then Field(":authority", "")
    else if i == 1 then Field(":method", "GET")
    else if i == 2 then Field(":method", "POST")
    else if i == 3 then Field(":path", "/")
    else if i == 4 then Field(":path", "/index.html")
    else if i == 5 then Field(":scheme", "http")
    else if i == 6 then Field(":scheme", "https")
    else if i == 7 then Field(":status", "200")
    else if i == 8 then Field(":status", "204")
    else if i == 9 then Field(":status", "206")
    else if i == 10 then Field(":status", "304")
    else if i == 11 then Field(":status", "400")
    else if i == 12 then Field(":status", "404")
    else if i == 13 then Field(":status", "500")
    else if i == 14 then Field("accept-charset", "")
    else if i == 15 then Field("accept-encoding", "gzip, deflate")
    else if i == 16 then Field("accept-language", "")
    else if i == 17 then Field("accept-ranges", "")
    else if i == 18 then Field("accept", "")
    else if i == 19 then Field("access-control-allow-origin", "")
    else if i == 20 then Field("age", "")
    else if i == 21 then Field("allow", "")
    else if i == 22 then Field("authorization", "")
    else if i == 23 then Field("cache-control", "")
    else if i == 24 then Field("content-disposition", "")
    else if i == 25 then Field("content-encoding", "")
    else if i == 26 then Field("content-language", "")
    else if i == 27 then Field("content-length", "")
    else if i == 28 then Field("content-location", "")
    else if i == 29 then Field("content-range", "")
    else if i == 30 then Field("content-type", "")
    else if i == 31 then Field("cookie", "")
    else if i == 32 then Field("date", "")
    else if i == 33 then Field("etag", "")
    else if i == 34 then Field("expect", "")
    else if i == 35 then Field("expires", "")
    else if i == 36 then Field("from", "")
    else if i == 37 then Field("host", "")
    else if i == 38 then Field("if-match", "")
    else if i == 39 then Field("if-modified-since", "")
    else if i == 40 then Field("if-none-match", "")
    else if i == 41 then Field("if-range", "")
    else if i == 42 then Field("if-unmodified-since", "")
    else if i == 43 then Field("last-modified", "")
    else if i == 44 then Field("link", "")
    else if i == 45 then Field("location", "")
    else if i == 46 then Field("max-forwards", "")
    else if i == 47 then Field("proxy-authenticate", "")
    else if i == 48 then Field("proxy-authorization", "")
    else if i == 49 then Field("range", "")
    else if i == 50 then Field("referer", "")
    else if i == 51 then Field("refresh", "")
    else if i == 52 then Field("retry-after", "")
    else if i == 53 then Field("server", "")
    else if i == 54 then Field("set-cookie", "")
    else if i == 55 then Field("strict-transport-security", "")
    else if i == 56 then Field("transfer-encoding", "")
    else if i == 57 then Field("user-agent", "")
    else if i == 58 then Field("vary", "")
    else if i == 59 then Field("via", "")
    else Field("www-authenticate", "")
  }

  function Static(): (es: seq<Entry>)
    ensures |es| == STATIC_ENTRIES
  {
    seq(STATIC_ENTRIES, i requires 0 <= i < STATIC_ENTRIES => StaticAt(i))
  }
}
