/** Cache files: their names, and the header that precedes the value. */
module FileFormat {
  import opened CStrings
  import UrlCodec

  const PREFIX := "mod-auth-openidc-"
  const HEADER_SIZE: nat := 16
  const FILE_SIZE_MAX: nat := 16 * 1024 * 1024
  const TWO_64: nat := 0x1_0000_0000_0000_0000

  datatype RawKey = Key(section: string, key: string)

  /** A key within a section; the sections' names contain no '-'. */
  type Key = k: RawKey | '-' !in k.section && IsCString(k.key) witness RawKey.Key("", "")

  datatype RawEntry = Entry(key: Key, value: string, expiry: int)

  /** What a cache file is to hold. Sizes are 64 bits unsigned, times 64 bits signed. */
  type Entry = e: RawEntry | IsCString(e.value) && |e.value| + 1 < TWO_64 && -(TWO_64 as int) <= 2 * e.expiry < TWO_64
    witness RawEntry.Entry(RawKey.Key("", ""), "", 0)

  function FileName(k: Key): string {
    PREFIX + k.section + "-" + UrlCodec.Encode(k.key)
  }

  function TempName(target: string, rnd: string): string {
    target + "." + rnd + ".tmp"
  }

  /** Two keys never share a cache file. */
  lemma FileNameInjective(k: Key, k': Key)
    requires FileName(k) == FileName(k')
    ensures k == k'
  {
    hide UrlCodec.Encode;
    var a, b := FileName(k), FileName(k');
    var p, m, n := |PREFIX|, |k.section|, |k'.section|;
    assert a[p + m] == '-' && b[p + n] == '-';
    assert forall i :: 0 <= i < m ==> a[p + i] == k.section[i];
    assert forall i :: 0 <= i < n ==> b[p + i] == k'.section[i];
    assert m == n;
    assert a[p..p + m] == k.section && b[p..p + n] == k'.section;
    assert a[p + m + 1..] == UrlCodec.Encode(k.key) && b[p + n + 1..] == UrlCodec.Encode(k'.key);
    UrlCodec.EncodeInjective(k.key, k'.key);
  }

  // ---- header ----

  /** The k low bytes of n, least significant first. */
  function Bytes(n: nat, k: nat): (s: string)
    ensures |s| == k && forall i :: 0 <= i < k ==> s[i] as int < 256
  {
    if k == 0 then "" else [(n % 256) as char] + Bytes(n / 256, k - 1)
  }

  function Number(s: string): nat {
    if s == "" then 0 else s[0] as int + 256 * Number(s[1..])
  }

  function Power256(k: nat): (n: nat)
    ensures n > 0
  {
    if k == 0 then 1 else 256 * Power256(k - 1)
  }

  lemma {:induction false} NumberOfBytes(n: nat, k: nat)
    requires n < Power256(k)
    ensures Number(Bytes(n, k)) == n
  {
    if k > 0 {
      NumberOfBytes(n / 256, k - 1);
      assert Bytes(n, k)[1..] == Bytes(n / 256, k - 1);
    }
  }

  function Header(len: nat, expire: int): (s: string)
    requires -(TWO_64 as int) <= expire
    ensures |s| == HEADER_SIZE
  {
    Bytes(len, 8) + Bytes((expire + TWO_64) % TWO_64, 8)
  }

  function HeaderLen(h: string): nat
    requires |h| == HEADER_SIZE
  {
    Number(h[..8])
  }

  function HeaderExpire(h: string): int
    requires |h| == HEADER_SIZE
  {
    var n := Number(h[8..]);
    if 2 * n < TWO_64 then n else n - TWO_64
  }

  /** What is written for an entry: the header, the value and its terminating NUL. */
  function Record(e: Entry): (s: string)
    ensures |s| == HEADER_SIZE + |e.value| + 1
  {
    Header(|e.value| + 1, e.expiry) + e.value + "\0"
  }

  /** The string in a NUL-terminated buffer. */
  function ToNul(s: string): string {
    s[..ChrOrEnd(s, '\0', 0)]
  }

  lemma PowerIsTwo64()
    ensures Power256(8) == TWO_64
  {
  }

  /** Reading back what was written gives the entry's expiry and value. */
  lemma RecordReadsBack(e: Entry)
    ensures var s := Record(e); var h := s[..HEADER_SIZE];
            && HeaderLen(h) == |e.value| + 1
            && HeaderExpire(h) == e.expiry
            && ToNul(s[HEADER_SIZE..HEADER_SIZE + HeaderLen(h)]) == e.value
  {
    hide Bytes, Number, Power256;
    var s := Record(e);
    var h := s[..HEADER_SIZE];
    var n := (e.expiry + TWO_64) % TWO_64;
    assert h == Header(|e.value| + 1, e.expiry);
    assert h[..8] == Bytes(|e.value| + 1, 8) && h[8..] == Bytes(n, 8);
    PowerIsTwo64();
    NumberOfBytes(|e.value| + 1, 8);
    NumberOfBytes(n, 8);
    assert n == if e.expiry < 0 then e.expiry + TWO_64 else e.expiry;
    assert s[HEADER_SIZE..HEADER_SIZE + HeaderLen(h)] == e.value + "\0";
    ValueEndsAtNul(e.value);
  }

  lemma ValueEndsAtNul(v: string)
    requires IsCString(v)
    ensures ToNul(v + "\0") == v
  {
    var b := v + "\0";
    assert b[|v|] == '\0' && forall i :: 0 <= i < |v| ==> b[i] == v[i];
    assert ChrOrEnd(b, '\0', 0) == |v|;
  }

  /** A cache file's name is one within the directory: it contains no slash. */
  lemma FileNameIsPlain(k: Key)
    requires '/' !in k.section
    ensures '/' !in FileName(k)
  {
    UrlCodec.EncodedIsFileName(k.key);
  }
}
