/** The static table is in order, so that every entry has its index. */
module StaticOrder {
  import opened Bits
  import opened DynamicTable
  import opened StaticTable

  /** a and b agree up to k, where a ends or has the smaller byte. */
  ghost predicate BeforeAt(a: seq<byte>, b: seq<byte>, k: nat) {
    && k < |b| && k <= |a| && a[..k] == b[..k]
    && (k < |a| ==> a[k] < b[k])
  }

  ghost predicate Before(a: seq<byte>, b: seq<byte>) {
    exists k :: BeforeAt(a, b, k)
  }

  /** Names in order when a colon is put behind them; the values of one name in order. */
  ghost predicate Precedes(e: Entry, f: Entry) {
    Before(e.name + [58], f.name + [58]) || (e.name == f.name && Before(e.value, f.value))
  }

  /** The same for texts. */
  ghost predicate TextBefore(s: string, t: string, k: nat) {
    && k < |t| && k <= |s| && s[..k] == t[..k]
    && (k < |s| ==> s[k] < t[k]) && t[k] as int < 256
  }

  lemma AsciiBefore(s: string, t: string, k: nat)
    requires TextBefore(s, t, k)
    ensures BeforeAt(Ascii(s), Ascii(t), k)
  {
    forall j | 0 <= j < k
      ensures Ascii(s)[j] == Ascii(t)[j]
    {
      assert s[..k][j] == t[..k][j];
    }
  }

  lemma NameOrder(i: nat, s: string, v: string, t: string, w: string, k: nat)
    requires i + 1 < STATIC_ENTRIES && StaticAt(i) == Field(s, v) && StaticAt(i + 1) == Field(t, w)
    requires TextBefore(s + ":", t + ":", k)
    ensures Precedes(StaticAt(i), StaticAt(i + 1))
  {
    hide StaticAt;
    AsciiBefore(s + ":", t + ":", k);
    assert Ascii(s + ":") == Ascii(s) + [58] && Ascii(t + ":") == Ascii(t) + [58];
  }

  lemma ValueOrder(i: nat, s: string, v: string, w: string, k: nat)
    requires i + 1 < STATIC_ENTRIES && StaticAt(i) == Field(s, v) && StaticAt(i + 1) == Field(s, w)
    requires TextBefore(v, w, k)
    ensures Precedes(StaticAt(i), StaticAt(i + 1))
  {
    hide StaticAt;
    AsciiBefore(v, w, k);
  }

  lemma OrderFrom0()
    ensures forall i :: 0 <= i < 3 ==> Precedes(StaticAt(i), StaticAt(i + 1))
  {
    hide Precedes, Ascii;
    NameOrder(0, ":authority", "", ":method", "GET", 1);
    ValueOrder(1, ":method", "GET", "POST", 0);
    NameOrder(2, ":method", "POST", ":path", "/", 1);
  }

  lemma OrderFrom3()
    ensures forall i :: 3 <= i < 6 ==> Precedes(StaticAt(i), StaticAt(i + 1))
  {
    hide Precedes, Ascii;
    ValueOrder(3, ":path", "/", "/index.html", 1);
    NameOrder(4, ":path", "/index.html", ":scheme", "http", 1);
    ValueOrder(5, ":scheme", "http", "https", 4);
  }

  lemma OrderFrom6()
    ensures forall i :: 6 <= i < 9 ==> Precedes(StaticAt(i), StaticAt(i + 1))
  {
    hide Precedes, Ascii;
    NameOrder(6, ":scheme", "https", ":status", "200", 2);
    ValueOrder(7, ":status", "200", "204", 2);
    ValueOrder(8, ":status", "204", "206", 2);
  }

  lemma OrderFrom9()
    ensures forall i :: 9 <= i < 12 ==> Precedes(StaticAt(i), StaticAt(i + 1))
  {
    hide Precedes, Ascii;
    ValueOrder(9, ":status", "206", "304", 0);
    ValueOrder(10, ":status", "304", "400", 0);
    ValueOrder(11, ":status", "400", "404", 2);
  }

  lemma OrderFrom12()
    ensures forall i :: 12 <= i < 15 ==> Precedes(StaticAt(i), StaticAt(i + 1))
  {
    hide Precedes, Ascii;
    ValueOrder(12, ":status", "404", "500", 0);
    NameOrder(13, ":status", "500", "accept-charset", "", 0);
    NameOrder(14, "accept-charset", "", "accept-encoding", "gzip, deflate", 7);
  }

  lemma OrderFrom15()
    ensures forall i :: 15 <= i < 18 ==> Precedes(StaticAt(i), StaticAt(i + 1))
  {
    hide Precedes, Ascii;
    NameOrder(15, "accept-encoding", "gzip, deflate", "accept-language", "", 7);
    NameOrder(16, "accept-language", "", "accept-ranges", "", 7);
    NameOrder(17, "accept-ranges", "", "accept", "", 6);
  }

  lemma OrderFrom18()
    ensures forall i :: 18 <= i < 21 ==> Precedes(StaticAt(i), StaticAt(i + 1))
  {
    hide Precedes, Ascii;
    NameOrder(18, "accept", "", "access-control-allow-origin", "", 4);
    NameOrder(19, "access-control-allow-origin", "", "age", "", 1);
    NameOrder(20, "age", "", "allow", "", 1);
  }

  lemma OrderFrom21()
    ensures forall i :: 21 <= i < 24 ==> Precedes(StaticAt(i), StaticAt(i + 1))
  {
    hide Precedes, Ascii;
    NameOrder(21, "allow", "", "authorization", "", 1);
    NameOrder(22, "authorization", "", "cache-control", "", 0);
    NameOrder(23, "cache-control", "", "content-disposition", "", 1);
  }

  lemma OrderFrom24()
    ensures forall i :: 24 <= i < 27 ==> Precedes(StaticAt(i), StaticAt(i + 1))
  {
    hide Precedes, Ascii;
    NameOrder(24, "content-disposition", "", "content-encoding", "", 8);
    NameOrder(25, "content-encoding", "", "content-language", "", 8);
    NameOrder(26, "content-language", "", "content-length", "", 9);
  }

  lemma OrderFrom27()
    ensures forall i :: 27 <= i < 30 ==> Precedes(StaticAt(i), StaticAt(i + 1))
  {
    hide Precedes, Ascii;
    NameOrder(27, "content-length", "", "content-location", "", 9);
    NameOrder(28, "content-location", "", "content-range", "", 8);
    NameOrder(29, "content-range", "", "content-type", "", 8);
  }

  lemma OrderFrom30()
    ensures forall i :: 30 <= i < 33 ==> Precedes(StaticAt(i), StaticAt(i + 1))
  {
    hide Precedes, Ascii;
    NameOrder(30, "content-type", "", "cookie", "", 2);
    NameOrder(31, "cookie", "", "date", "", 0);
    NameOrder(32, "date", "", "etag", "", 0);
  }

  lemma OrderFrom33()
    ensures forall i :: 33 <= i < 36 ==> Precedes(StaticAt(i), StaticAt(i + 1))
  {
    hide Precedes, Ascii;
    NameOrder(33, "etag", "", "expect", "", 1);
    NameOrder(34, "expect", "", "expires", "", 3);
    NameOrder(35, "expires", "", "from", "", 0);
  }

  lemma OrderFrom36()
    ensures forall i :: 36 <= i < 39 ==> Precedes(StaticAt(i), StaticAt(i + 1))
  {
    hide Precedes, Ascii;
    NameOrder(36, "from", "", "host", "", 0);
    NameOrder(37, "host", "", "if-match", "", 0);
    NameOrder(38, "if-match", "", "if-modified-since", "", 4);
  }

  lemma OrderFrom39()
    ensures forall i :: 39 <= i < 42 ==> Precedes(StaticAt(i), StaticAt(i + 1))
  {
    hide Precedes, Ascii;
    NameOrder(39, "if-modified-since", "", "if-none-match", "", 3);
    NameOrder(40, "if-none-match", "", "if-range", "", 3);
    NameOrder(41, "if-range", "", "if-unmodified-since", "", 3);
  }

  lemma OrderFrom42()
    ensures forall i :: 42 <= i < 45 ==> Precedes(StaticAt(i), StaticAt(i + 1))
  {
    hide Precedes, Ascii;
    NameOrder(42, "if-unmodified-since", "", "last-modified", "", 0);
    NameOrder(43, "last-modified", "", "link", "", 1);
    NameOrder(44, "link", "", "location", "", 1);
  }

  lemma OrderFrom45()
    ensures forall i :: 45 <= i < 48 ==> Precedes(StaticAt(i), StaticAt(i + 1))
  {
    hide Precedes, Ascii;
    NameOrder(45, "location", "", "max-forwards", "", 0);
    NameOrder(46, "max-forwards", "", "proxy-authenticate", "", 0);
    NameOrder(47, "proxy-authenticate", "", "proxy-authorization", "", 10);
  }

  lemma OrderFrom48()
    ensures forall i :: 48 <= i < 51 ==> Precedes(StaticAt(i), StaticAt(i + 1))
  {
    hide Precedes, Ascii;
    NameOrder(48, "proxy-authorization", "", "range", "", 0);
    NameOrder(49, "range", "", "referer", "", 1);
    NameOrder(50, "referer", "", "refresh", "", 3);
  }

  lemma OrderFrom51()
    ensures forall i :: 51 <= i < 54 ==> Precedes(StaticAt(i), StaticAt(i + 1))
  {
    hide Precedes, Ascii;
    NameOrder(51, "refresh", "", "retry-after", "", 2);
    NameOrder(52, "retry-after", "", "server", "", 0);
    NameOrder(53, "server", "", "set-cookie", "", 2);
  }

  lemma OrderFrom54()
    ensures forall i :: 54 <= i < 57 ==> Precedes(StaticAt(i), StaticAt(i + 1))
  {
    hide Precedes, Ascii;
    NameOrder(54, "set-cookie", "", "strict-transport-security", "", 1);
    NameOrder(55, "strict-transport-security", "", "transfer-encoding", "", 0);
    NameOrder(56, "transfer-encoding", "", "user-agent", "", 0);
  }

  lemma OrderFrom57()
    ensures forall i :: 57 <= i < 60 ==> Precedes(StaticAt(i), StaticAt(i + 1))
  {
    hide Precedes, Ascii;
    NameOrder(57, "user-agent", "", "vary", "", 0);
    NameOrder(58, "vary", "", "via", "", 1);
    NameOrder(59, "via", "", "www-authenticate", "", 0);
  }

  /** By name, then by value: no entry could stand at another index. */
  lemma StaticIsOrdered(i: nat)
    requires i + 1 < STATIC_ENTRIES
    ensures Precedes(Static()[i], Static()[i + 1])
  {
    hide Precedes, StaticAt;
    OrderFrom0();
    OrderFrom3();
    OrderFrom6();
    OrderFrom9();
    OrderFrom12();
    OrderFrom15();
    OrderFrom18();
    OrderFrom21();
    OrderFrom24();
    OrderFrom27();
    OrderFrom30();
    OrderFrom33();
    OrderFrom36();
    OrderFrom39();
    OrderFrom42();
    OrderFrom45();
    OrderFrom48();
    OrderFrom51();
    OrderFrom54();
    OrderFrom57();
  }
}
