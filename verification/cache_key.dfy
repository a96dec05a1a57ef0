/**
 * The identity under which idle connections are pooled: a security flag, an
 * optional proxy address and an optional destination address, compared with
 * a security-aware equality (`ConnectionPool.CacheKey`).
 */
module CacheKeys {
  import opened Options

  /**
   * A socket address. `endpoint` stands for the (IP address, port) pair that
   * the address's own `equals` and `hashCode` look at; `hostString` is what
   * `getHostString()` answers, `None` for a null answer.
   */
  datatype Address = Address(endpoint: int, hostString: Option<string>)

  datatype CacheKey = CacheKey(secure: bool, destination: Option<Address>, proxy: Option<Address>)

  /** `Objects.equals` on two possibly-null addresses. */
  predicate SameAddress(a: Option<Address>, b: Option<Address>) {
    match (a, b)
    case (None, None) => true
    case (Some(x), Some(y)) => x.endpoint == y.endpoint
    case _ => false
  }

  // ---------------------------------------------------------------------
  // Case-insensitive host comparison (ASCII letters)
  // ---------------------------------------------------------------------

  function ToUpper(c: char): char {
    if 'a' <= c <= 'z' then (c as int - 32) as char else c
  }

  function ToLower(c: char): char {
    if 'A' <= c <= 'Z' then (c as int + 32) as char else c
  }

  /** The per-character test of `String.equalsIgnoreCase`: equal, equal
      upper-cased, or equal lower-cased after upper-casing. */
  predicate CharsMatchIgnoringCase(a: char, b: char) {
    || a == b
    || ToUpper(a) == ToUpper(b)
    || ToLower(ToUpper(a)) == ToLower(ToUpper(b))
  }

  /** `String.equalsIgnoreCase` on two non-null strings. */
  predicate EqualsIgnoreCase(s: string, t: string) {
    |s| == |t| && forall i | 0 <= i < |s| :: CharsMatchIgnoringCase(s[i], t[i])
  }

  function Lower(s: string): (r: string)
    ensures |r| == |s|
    ensures forall i | 0 <= i < |s| :: r[i] == ToLower(s[i])
  {
    seq(|s|, i requires 0 <= i < |s| => ToLower(s[i]))
  }

  /** Two characters match ignoring case exactly when they lower-case alike. */
  lemma CharsMatchIffSameLower(a: char, b: char)
    ensures CharsMatchIgnoringCase(a, b) <==> ToLower(a) == ToLower(b)
  {
  }

  /** `equalsIgnoreCase` is equality of the lower-cased strings. */
  lemma EqualsIgnoreCaseIffSameLower(s: string, t: string)
    ensures EqualsIgnoreCase(s, t) <==> Lower(s) == Lower(t)
  {
    if EqualsIgnoreCase(s, t) {
      forall i | 0 <= i < |s|
        ensures Lower(s)[i] == Lower(t)[i]
      {
        CharsMatchIffSameLower(s[i], t[i]);
      }
    }
    if Lower(s) == Lower(t) {
      assert |s| == |Lower(s)| == |t|;
      forall i | 0 <= i < |s|
        ensures CharsMatchIgnoringCase(s[i], t[i])
      {
        assert Lower(s)[i] == Lower(t)[i];
        CharsMatchIffSameLower(s[i], t[i]);
      }
    }
  }

  // ---------------------------------------------------------------------
  // CacheKey.equals and CacheKey.hashCode
  // ---------------------------------------------------------------------

  /**
   * `CacheKey.equals`: same security flag, same proxy, same destination and,
   * for a secure key with a destination, host strings that are both present
   * and equal ignoring case.
   */
  predicate KeyEquals(a: CacheKey, b: CacheKey)
    ensures KeyEquals(a, b) ==> HashCode(a) == HashCode(b)
  {
    if a.secure != b.secure then false
    else if !SameAddress(a.proxy, b.proxy) then false
    else if !SameAddress(a.destination, b.destination) then false
    else if a.secure && a.destination.Some? then
      var mine := a.destination.value.hostString;
      var theirs := b.destination.value.hostString;
      mine.Some? && theirs.Some? && EqualsIgnoreCase(mine.value, theirs.value)
    else true
  }

  /** Java's `(int)` narrowing: wraps an integer into the signed 32-bit range. */
  function Int32(x: int): (r: int)
    ensures -0x8000_0000 <= r < 0x8000_0000
    ensures (r - x) % 0x1_0000_0000 == 0
  {
    var m := x % 0x1_0000_0000;
    if m >= 0x8000_0000 then m - 0x1_0000_0000 else m
  }

  /** Hash of a possibly-null address (0 for null, as `Objects.hash` does). */
  function AddressHash(a: Option<Address>): int {
    match a
    case None => 0
    case Some(x) => Int32(x.endpoint)
  }

  /** `Objects.hash(proxy, destination)`, in 32-bit arithmetic. */
  function HashCode(k: CacheKey): (h: int)
    ensures -0x8000_0000 <= h < 0x8000_0000
    ensures k.proxy.None? && k.destination.None? ==> h == 961
  {
    Int32(31 * (31 + AddressHash(k.proxy)) + AddressHash(k.destination))
  }

  /** The hash is coherent with equality. */
  lemma EqualKeysHashEqually(a: CacheKey, b: CacheKey)
    requires KeyEquals(a, b)
    ensures HashCode(a) == HashCode(b)
  {
  }

  /** The hash is coarser than equality: flipping the security flag keeps the
      hash but never yields an equal key. */
  lemma HashIgnoresSecurity(k: CacheKey)
    ensures HashCode(k.(secure := !k.secure)) == HashCode(k)
    ensures !KeyEquals(k, k.(secure := !k.secure))
  {
  }

  /** Two secure keys to one address whose host names differ (ignoring case)
      are different keys. */
  lemma SecureHostsDistinguished(a: CacheKey, b: CacheKey)
    requires a.secure && b.secure
    requires a.destination.Some? && b.destination.Some?
    requires a.destination.value.hostString.Some? && b.destination.value.hostString.Some?
    requires Lower(a.destination.value.hostString.value) != Lower(b.destination.value.hostString.value)
    ensures !KeyEquals(a, b)
  {
    EqualsIgnoreCaseIffSameLower(a.destination.value.hostString.value, b.destination.value.hostString.value);
  }

  // ---------------------------------------------------------------------
  // Canonical form: the equivalence class a HashMap lookup lands in
  // ---------------------------------------------------------------------

  /** A canonical representative of the keys `KeyEquals` identifies. */
  datatype KeyClass = KeyClass(secure: bool, proxy: Option<int>, destination: Option<int>, host: Option<string>)

  function Endpoint(a: Option<Address>): Option<int> {
    match a
    case None => None
    case Some(x) => Some(x.endpoint)
  }

  function ClassOf(k: CacheKey): KeyClass {
    var host :=
      if k.secure && k.destination.Some? && k.destination.value.hostString.Some?
      then Some(Lower(k.destination.value.hostString.value))
      else None;
    KeyClass(k.secure, Endpoint(k.proxy), Endpoint(k.destination), host)
  }

  /** A secure key with a destination has a host string. `getHostString()`
      never answers null, so every key the pool sees has this shape. */
  predicate HostKnown(k: CacheKey) {
    k.secure && k.destination.Some? ==> k.destination.value.hostString.Some?
  }

  /** Equal keys have equal classes; for keys with a known host the converse
      holds too, so a map keyed by `ClassOf` finds what a HashMap keyed by
      `CacheKey` finds. */
  lemma KeyEqualsIffSameClass(a: CacheKey, b: CacheKey)
    ensures KeyEquals(a, b) ==> ClassOf(a) == ClassOf(b)
    ensures HostKnown(a) && ClassOf(a) == ClassOf(b) ==> KeyEquals(a, b)
  {
    if a.secure && a.destination.Some? && b.destination.Some? {
      var ha := a.destination.value.hostString;
      var hb := b.destination.value.hostString;
      if ha.Some? && hb.Some? {
        EqualsIgnoreCaseIffSameLower(ha.value, hb.value);
      }
    }
  }

  /** Restricted to keys with a known host, `KeyEquals` is an equivalence. */
  lemma KeyEqualsIsEquivalence(a: CacheKey, b: CacheKey, c: CacheKey)
    requires HostKnown(a) && HostKnown(b) && HostKnown(c)
    ensures KeyEquals(a, a)
    ensures KeyEquals(a, b) ==> KeyEquals(b, a)
    ensures KeyEquals(a, b) && KeyEquals(b, c) ==> KeyEquals(a, c)
  {
    KeyEqualsIffSameClass(a, a);
    KeyEqualsIffSameClass(a, b);
    KeyEqualsIffSameClass(b, a);
    KeyEqualsIffSameClass(b, c);
    KeyEqualsIffSameClass(a, c);
  }
}
