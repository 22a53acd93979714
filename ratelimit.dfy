/**
 * The `rate_limit` decorator of api/routers.py: the cache key derived from
 * the client's address, and the sliding window of recent request times
 * kept under that key.
 */
module RateLimit {
  import opened Shared

  /** The two entries of `request.META` the decorator reads. */
  datatype Meta = Meta(forwardedFor: Option<string>, remoteAddr: Option<string>)

  /** Python's `str.isspace()`: the characters `str.strip()` removes. */
  predicate IsSpace(c: char) {
    var n := c as int;
    || n == 0x20 || 0x09 <= n <= 0x0D || 0x1C <= n <= 0x1F
    || n == 0x85 || n == 0xA0 || n == 0x1680 || 0x2000 <= n <= 0x200A
    || n == 0x2028 || n == 0x2029 || n == 0x202F || n == 0x205F || n == 0x3000
  }

  /** `s.lstrip()`. */
  function TrimStart(s: string): (r: string)
    ensures |r| <= |s| && r == s[|s| - |r|..]
    ensures r == [] || !IsSpace(r[0])
    ensures forall k :: 0 <= k < |s| - |r| ==> IsSpace(s[k])
  {
    if s != [] && IsSpace(s[0]) then TrimStart(s[1..]) else s
  }

  /** `s.rstrip()`. */
  function TrimEnd(s: string): (r: string)
    ensures |r| <= |s| && r == s[..|r|]
    ensures r == [] || !IsSpace(r[|r| - 1])
    ensures forall k :: |r| <= k < |s| ==> IsSpace(s[k])
  {
    if s != [] && IsSpace(s[|s| - 1]) then TrimEnd(s[..|s| - 1]) else s
  }

  /** `s.strip()`. */
  function Strip(s: string): string {
    TrimEnd(TrimStart(s))
  }

  /** `s.split(',')[0]`: everything before the first comma, or all of `s` when it has none. */
  function FirstField(s: string): (r: string)
    ensures |r| <= |s| && r == s[..|r|]
    ensures ',' !in r
    ensures |r| < |s| ==> s[|r|] == ','
  {
    if s == [] || s[0] == ',' then [] else [s[0]] + FirstField(s[1..])
  }

  /** `s.replace(a, b)` for single characters. */
  function ReplaceChar(s: string, a: char, b: char): (r: string)
    ensures |r| == |s|
    ensures forall k :: 0 <= k < |s| ==> r[k] == if s[k] == a then b else s[k]
  {
    if s == [] then [] else [if s[0] == a then b else s[0]] + ReplaceChar(s[1..], a, b)
  }

  /** Spaces and colons become underscores so that the key is valid for memcached. */
  function Sanitize(s: string): string {
    ReplaceChar(ReplaceChar(s, ' ', '_'), ':', '_')
  }

  /**
   * `request.META.get('HTTP_X_FORWARDED_FOR', request.META.get('REMOTE_ADDR'))`:
   * the default applies only when the header is absent, not when it is empty.
   */
  function RawAddress(m: Meta): Option<string> {
    if m.forwardedFor.Some? then m.forwardedFor else m.remoteAddr
  }

  const Unknown: string := "unknown"

  /** The client part of the key: `unknown` when the raw address is absent or empty. */
  function ClientIp(m: Meta): (ip: string)
    ensures RawAddress(m).None? || RawAddress(m) == Some("") ==> ip == Unknown
    ensures RawAddress(m).Some? && RawAddress(m).value != "" ==> |ip| <= |RawAddress(m).value|
  {
    match RawAddress(m)
    case Some(raw) => if raw != "" then Sanitize(Strip(FirstField(raw))) else Unknown
    case None => Unknown
  }

  /** `f"rl_{key_prefix}_{ip}"`. */
  function CacheKey(prefix: string, m: Meta): (key: string)
    ensures |key| == |prefix| + |ClientIp(m)| + 4
    ensures key[..3] == "rl_" && key[3..3 + |prefix|] == prefix && key[3 + |prefix|] == '_'
    ensures key[|key| - |ClientIp(m)|..] == ClientIp(m)
  {
    var head := "rl_" + prefix + "_";
    assert head[..3] == "rl_" && head[3..3 + |prefix|] == prefix && head[3 + |prefix|] == '_';
    head + ClientIp(m)
  }

  /**
   * Under one decorator, two requests share a window exactly when their
   * client parts are equal.
   */
  lemma SharedWindow(prefix: string, m1: Meta, m2: Meta)
    ensures CacheKey(prefix, m1) == CacheKey(prefix, m2) <==> ClientIp(m1) == ClientIp(m2)
  {
    var k1, k2 := CacheKey(prefix, m1), CacheKey(prefix, m2);
    if k1 == k2 {
      assert ClientIp(m1) == k1[|prefix| + 4..];
      assert ClientIp(m2) == k2[|prefix| + 4..];
    }
  }

  /** Stripping only removes characters, and leaves no whitespace at either end. */
  lemma StripShape(f: string)
    ensures forall c :: c in Strip(f) ==> c in f
    ensures Strip(f) == [] || (!IsSpace(Strip(f)[0]) && !IsSpace(Strip(f)[|Strip(f)| - 1]))
  {
    var t := TrimStart(f);
    var st := TrimEnd(t);
    assert Strip(f) == st;
    assert st == t[..|st|] && t == f[|f| - |t|..];
    forall c | c in st ensures c in f {
      var k :| 0 <= k < |st| && st[k] == c;
      assert st[k] == t[k] == f[|f| - |t| + k];
    }
    if st != [] {
      assert st[0] == t[0];
    }
  }

  /** A client part that is safe inside a memcached key and cannot be confused with a padded one. */
  predicate SafeClient(ip: string) {
    && ' ' !in ip && ':' !in ip && ',' !in ip
    && (ip != [] ==> !IsSpace(ip[0]) && !IsSpace(ip[|ip| - 1]))
  }

  /** Sanitizing a stripped field with no comma leaves no space, colon or comma and no whitespace at either end. */
  lemma SanitizeShape(st: string)
    requires ',' !in st
    requires st == [] || (!IsSpace(st[0]) && !IsSpace(st[|st| - 1]))
    ensures SafeClient(Sanitize(st))
  {
    var ip := Sanitize(st);
    assert |ip| == |st|;
    forall k | 0 <= k < |ip|
      ensures ip[k] != ' ' && ip[k] != ':' && ip[k] != ','
    {
      assert st[k] in st;
    }
  }

  /** The fallback client part is safe. */
  lemma UnknownIsSafe()
    ensures SafeClient(Unknown)
  {
    assert Unknown[0] == 'u' && Unknown[|Unknown| - 1] == 'n';
  }

  /** The client part taken from the first field of an address is safe. */
  lemma FieldClientIsSafe(raw: string)
    ensures SafeClient(Sanitize(Strip(FirstField(raw))))
  {
    var f := FirstField(raw);
    StripShape(f);
    SanitizeShape(Strip(f));
  }

  /** The client part of every key holds no space, colon or comma and is not padded with whitespace. */
  lemma ClientIpIsSafe(m: Meta)
    ensures var ip := ClientIp(m);
      && ' ' !in ip && ':' !in ip && ',' !in ip
      && (ip != [] ==> !IsSpace(ip[0]) && !IsSpace(ip[|ip| - 1]))
  {
    if RawAddress(m).Some? && RawAddress(m).value != "" {
      FieldClientIsSafe(RawAddress(m).value);
    } else {
      UnknownIsSafe();
    }
    assert SafeClient(ClientIp(m));
  }

  /** No usable address at all, or an empty one, yields the `unknown` client. */
  lemma MissingAddressIsUnknown(m: Meta)
    requires RawAddress(m) == None || RawAddress(m) == Some("")
    ensures CacheKey("login", m) == "rl_login_unknown"
  {
  }

  /**
   * Behind a proxy chain only the first hop counts, stripped and sanitized,
   * and REMOTE_ADDR is not consulted while the header is present.
   */
  lemma FirstHopDecides(first: string, rest: string, remote: Option<string>)
    requires ',' !in first
    ensures ClientIp(Meta(Some(first + "," + rest), remote)) == Sanitize(Strip(first))
  {
    var raw := first + "," + rest;
    assert raw != "" by { assert raw[|first|] == ','; }
    FirstFieldOfChain(first, rest);
    assert ClientIp(Meta(Some(raw), remote)) == Sanitize(Strip(FirstField(raw)));
  }

  lemma {:induction false} FirstFieldOfChain(first: string, rest: string)
    requires ',' !in first
    ensures FirstField(first + "," + rest) == first
  {
    if first != [] {
      assert (first + "," + rest)[1..] == first[1..] + "," + rest;
      FirstFieldOfChain(first[1..], rest);
    }
  }

  /** With no comma in it, the whole header is the first field. */
  lemma WholeFieldWithoutComma(a: string)
    requires ',' !in a
    ensures FirstField(a) == a
  {
  }

  /** An address with no comma and no padding is only sanitized, from either source. */
  lemma UnpaddedAddress(a: string, other: Option<string>)
    requires a != ""
    requires forall k :: 0 <= k < |a| ==> a[k] != ',' && !IsSpace(a[k])
    ensures ClientIp(Meta(Some(a), other)) == Sanitize(a)
    ensures ClientIp(Meta(None, Some(a))) == Sanitize(a)
  {
    UnpaddedField(a);
  }

  /** Such an address is its own stripped first field. */
  lemma UnpaddedField(a: string)
    requires forall k :: 0 <= k < |a| ==> a[k] != ',' && !IsSpace(a[k])
    ensures Strip(FirstField(a)) == a
  {
    WholeFieldWithoutComma(a);
    assert TrimStart(a) == a;
    assert TrimEnd(a) == a;
  }

  /** An address with nothing to strip or replace is used as it is. */
  lemma PlainAddressIsKept(a: string, other: Option<string>)
    requires a != ""
    requires forall k :: 0 <= k < |a| ==> a[k] != ',' && a[k] != ':' && !IsSpace(a[k])
    ensures ClientIp(Meta(Some(a), other)) == a
    ensures ClientIp(Meta(None, Some(a))) == a
  {
    UnpaddedAddress(a, other);
    assert ReplaceChar(a, ' ', '_') == a;
    assert ReplaceChar(a, ':', '_') == a;
  }

  /** The IPv6 loopback address becomes `__1`. */
  lemma Ipv6Loopback()
    ensures ClientIp(Meta(None, Some("::1"))) == "__1"
  {
    var a := "::1";
    assert !IsSpace(a[0]) && !IsSpace(a[1]) && !IsSpace(a[2]);
    UnpaddedAddress(a, None);
    SanitizeLoopback();
  }

  lemma SanitizeLoopback()
    ensures Sanitize("::1") == "__1"
  {
    var once := ReplaceChar("::1", ' ', '_');
    assert once == "::1";
    var twice := ReplaceChar(once, ':', '_');
    assert twice[0] == '_' && twice[1] == '_' && twice[2] == '1';
  }

  /** `requests = cache.get(key, [])`. */
  function Recent(cache: map<string, seq<real>>, key: string): seq<real> {
    if key in cache then cache[key] else []
  }

  /** `[req for req in requests if req > now - period]`. */
  function Kept(ts: seq<real>, now: real, period: real): (r: seq<real>)
    ensures |r| <= |ts|
    ensures forall t :: t in r <==> t in ts && t > now - period
    ensures forall t :: multiset(r)[t] == if t > now - period then multiset(ts)[t] else 0
  {
    if ts == [] then []
    else
      var init := Kept(ts[..|ts| - 1], now, period);
      assert ts == ts[..|ts| - 1] + [ts[|ts| - 1]];
      assert multiset(ts) == multiset(ts[..|ts| - 1]) + multiset{ts[|ts| - 1]};
      if ts[|ts| - 1] > now - period then init + [ts[|ts| - 1]] else init
  }

  /** Nothing is purged while every time is inside the window. */
  lemma {:induction false} KeptAllRecent(ts: seq<real>, now: real, period: real)
    requires forall k :: 0 <= k < |ts| ==> ts[k] > now - period
    ensures Kept(ts, now, period) == ts
  {
    if ts != [] {
      KeptAllRecent(ts[..|ts| - 1], now, period);
      assert ts == ts[..|ts| - 1] + [ts[|ts| - 1]];
    }
  }

  /** Everything is purged once every time has left the window. */
  lemma {:induction false} KeptNoneRecent(ts: seq<real>, now: real, period: real)
    requires forall k :: 0 <= k < |ts| ==> ts[k] <= now - period
    ensures Kept(ts, now, period) == []
  {
    if ts != [] {
      KeptNoneRecent(ts[..|ts| - 1], now, period);
    }
  }

  /** What one call decides, and on acceptance the list it stores. */
  datatype Decision = Reject | Accept(stored: seq<real>)

  function Decide(ts: seq<real>, now: real, limit: int, period: real): (d: Decision)
    ensures d.Accept? <==> |Kept(ts, now, period)| < limit
    ensures d.Accept? ==> |d.stored| <= limit && now in d.stored
  {
    var kept := Kept(ts, now, period);
    if |kept| >= limit then Reject else Accept(kept + [now])
  }

  /**
   * The cache entry expires `period` seconds after it was written at
   * `written`, when every time it holds is at most `written`; a call after
   * the expiry decides as if the entry were still there, so expiry changes
   * no decision and a lapsed window starts afresh.
   */
  lemma ExpiryChangesNothing(ts: seq<real>, written: real, now: real, limit: int, period: real)
    requires forall k :: 0 <= k < |ts| ==> ts[k] <= written
    requires now >= written + period
    ensures Decide(ts, now, limit, period) == Decide([], now, limit, period)
    ensures limit > 0 ==> Decide(ts, now, limit, period) == Accept([now])
  {
    KeptNoneRecent(ts, now, period);
  }

  /** The decisions of successive calls at `times` on one key, starting from the stored list `ts`. */
  function Decisions(ts: seq<real>, times: seq<real>, limit: int, period: real): (r: seq<bool>)
    ensures |r| == |times|
    decreases |times|
  {
    if times == [] then []
    else match Decide(ts, times[0], limit, period)
      case Reject => [false] + Decisions(ts, times[1..], limit, period)
      case Accept(stored) => [true] + Decisions(stored, times[1..], limit, period)
  }

  /** Call times from a clock that does not run backwards, all inside one window. */
  ghost predicate OneWindow(times: seq<real>, period: real) {
    && (forall i, j :: 0 <= i < j < |times| ==> times[i] <= times[j])
    && (forall i, j :: 0 <= i < j < |times| ==> times[j] - times[i] < period)
  }

  lemma {:induction false} DecisionsInWindow(ts: seq<real>, times: seq<real>, limit: int, period: real)
    requires OneWindow(times, period)
    requires forall k, j :: 0 <= k < |ts| && 0 <= j < |times| ==> ts[k] > times[j] - period
    ensures forall i :: 0 <= i < |times| ==> Decisions(ts, times, limit, period)[i] == (|ts| + i < limit)
    decreases |times|
  {
    if times != [] {
      KeptAllRecent(ts, times[0], period);
      var rest := times[1..];
      assert OneWindow(rest, period);
      var r := Decisions(ts, times, limit, period);
      match Decide(ts, times[0], limit, period)
      case Reject =>
        DecisionsInWindow(ts, rest, limit, period);
        forall i | 0 <= i < |times|
          ensures r[i] == (|ts| + i < limit)
        {
          if i > 0 { assert r[i] == Decisions(ts, rest, limit, period)[i - 1]; }
        }
      case Accept(stored) =>
        assert stored == ts + [times[0]];
        forall k, j | 0 <= k < |stored| && 0 <= j < |rest|
          ensures stored[k] > rest[j] - period
        {
          assert rest[j] == times[j + 1];
        }
        DecisionsInWindow(stored, rest, limit, period);
        forall i | 0 <= i < |times|
          ensures r[i] == (|ts| + i < limit)
        {
          if i > 0 { assert r[i] == Decisions(stored, rest, limit, period)[i - 1]; }
        }
    }
  }

  /**
   * Within one window a fresh client gets exactly `limit` calls through:
   * call `i` (counting from 0) is allowed if and only if `i < limit`.
   */
  lemma WindowAdmitsExactlyLimit(times: seq<real>, limit: int, period: real)
    requires OneWindow(times, period)
    ensures forall i :: 0 <= i < |times| ==> Decisions([], times, limit, period)[i] == (i < limit)
  {
    DecisionsInWindow([], times, limit, period);
  }

  /** Call times from a clock that does not run backwards. */
  ghost predicate Nondecreasing(times: seq<real>) {
    forall i, j :: 0 <= i < j < |times| ==> times[i] <= times[j]
  }

  /** How many of the first `n` calls were let through at a time later than `lo`. */
  function AcceptedAfter(allowed: seq<bool>, times: seq<real>, n: nat, lo: real): nat
    requires n <= |allowed| && n <= |times|
  {
    if n == 0 then 0
    else AcceptedAfter(allowed, times, n - 1, lo) + (if allowed[n - 1] && times[n - 1] > lo then 1 else 0)
  }

  /** The count over the first `n + 1` calls is the first call's share plus the count over the others. */
  lemma {:induction false} AcceptedAfterCons(b: bool, allowed: seq<bool>, t: real, times: seq<real>, n: nat, lo: real)
    requires n <= |allowed| && n <= |times|
    ensures AcceptedAfter([b] + allowed, [t] + times, n + 1, lo)
      == (if b && t > lo then 1 else 0) + AcceptedAfter(allowed, times, n, lo)
  {
    if n > 0 {
      AcceptedAfterCons(b, allowed, t, times, n - 1, lo);
      assert ([b] + allowed)[n] == allowed[n - 1] && ([t] + times)[n] == times[n - 1];
    }
  }

  /** The calls counted among the first `n` are those counted among the first `n - 1`, and the last one if it counts. */
  lemma AcceptedSetStep(allowed: seq<bool>, times: seq<real>, n: nat, lo: real)
    requires 0 < n <= |allowed| && n <= |times|
    ensures (set j | 0 <= j < n && allowed[j] && times[j] > lo)
      == (set j | 0 <= j < n - 1 && allowed[j] && times[j] > lo)
         + (if allowed[n - 1] && times[n - 1] > lo then {n - 1} else {})
  {
  }

  /** The count is the number of such calls. */
  lemma {:induction false} AcceptedAfterIsCount(allowed: seq<bool>, times: seq<real>, n: nat, lo: real)
    requires n <= |allowed| && n <= |times|
    ensures |set j | 0 <= j < n && allowed[j] && times[j] > lo| == AcceptedAfter(allowed, times, n, lo)
    decreases n
  {
    if n > 0 {
      AcceptedAfterIsCount(allowed, times, n - 1, lo);
      AcceptedSetStep(allowed, times, n, lo);
      var before := set j | 0 <= j < n - 1 && allowed[j] && times[j] > lo;
      assert n - 1 !in before;
    }
  }

  /** Purging a list with one more time at the end keeps that time exactly when it is recent. */
  lemma KeptAppend(ts: seq<real>, x: real, now: real, period: real)
    ensures |Kept(ts + [x], now, period)| == |Kept(ts, now, period)| + (if x > now - period then 1 else 0)
  {
    assert (ts + [x])[..|ts + [x]| - 1] == ts;
  }

  /** A later purge keeps no more than an earlier one, and purging twice is purging at the later time. */
  lemma {:induction false} KeptLater(ts: seq<real>, t: real, u: real, period: real)
    requires t <= u
    ensures |Kept(ts, u, period)| <= |Kept(ts, t, period)|
    ensures Kept(Kept(ts, t, period), u, period) == Kept(ts, u, period)
  {
    if ts != [] {
      var init := ts[..|ts| - 1];
      var x := ts[|ts| - 1];
      KeptLater(init, t, u, period);
      if x > t - period {
        var k := Kept(init, t, period);
        assert (k + [x])[..|k + [x]| - 1] == k;
      }
    }
  }

  /** The list stored under the key after a call at `now`: unchanged when the call is rejected. */
  function After(ts: seq<real>, now: real, limit: int, period: real): seq<real> {
    match Decide(ts, now, limit, period)
    case Reject => ts
    case Accept(stored) => stored
  }

  /** The first decision is taken on the stored list, the others on the list it leaves. */
  lemma DecisionsCons(ts: seq<real>, t0: real, rest: seq<real>, limit: int, period: real)
    ensures Decisions(ts, [t0] + rest, limit, period)
      == [Decide(ts, t0, limit, period).Accept?] + Decisions(After(ts, t0, limit, period), rest, limit, period)
  {
    assert ([t0] + rest)[0] == t0 && ([t0] + rest)[1..] == rest;
  }

  /**
   * The bound at call `i`, from the stored list `ts`: if any of the first
   * `i + 1` calls was let through, those let through since
   * `times[i] - period`, with the stored times still in that window, are at
   * most `limit`.
   */
  ghost predicate BoundAt(ts: seq<real>, times: seq<real>, limit: int, period: real, i: nat)
    requires i < |times|
  {
    var n := AcceptedAfter(Decisions(ts, times, limit, period), times, i + 1, times[i] - period);
    n == 0 || n + |Kept(ts, times[i], period)| <= limit
  }

  /** `BoundAt` in terms of the decisions, the count and the purged length it is about. */
  lemma BoundAtIs(ts: seq<real>, times: seq<real>, limit: int, period: real, i: nat,
                  now: real, n: nat, recent: nat)
    requires i < |times| && times[i] == now
    requires n == AcceptedAfter(Decisions(ts, times, limit, period), times, i + 1, now - period)
    requires recent == |Kept(ts, now, period)|
    ensures BoundAt(ts, times, limit, period, i) <==> n == 0 || n + recent <= limit
  {
  }

  /** The bound at the first call. */
  lemma AcceptedFirst(ts: seq<real>, t0: real, rest: seq<real>, limit: int, period: real)
    ensures BoundAt(ts, [t0] + rest, limit, period, 0)
  {
    DecisionsCons(ts, t0, rest, limit, period);
    assert ([t0] + rest)[0] == t0;
  }

  /**
   * A call let through at `t0` leaves, for any later purge, the stored times
   * still recent then plus `t0` if it is; there were fewer than `limit` of
   * those stored times.
   */
  lemma KeptAfterAccept(ts: seq<real>, t0: real, u: real, limit: int, period: real)
    requires t0 <= u && Decide(ts, t0, limit, period).Accept?
    ensures |Kept(After(ts, t0, limit, period), u, period)| == |Kept(ts, u, period)| + (if t0 > u - period then 1 else 0)
    ensures |Kept(ts, u, period)| < limit
  {
    var kept := Kept(ts, t0, period);
    assert After(ts, t0, limit, period) == kept + [t0];
    KeptAppend(kept, t0, u, period);
    KeptLater(ts, t0, u, period);
  }

  /** The count over the first `i + 2` calls splits into the first call's share and the count over the others. */
  lemma AcceptedCons(ts: seq<real>, t0: real, rest: seq<real>, limit: int, period: real, i: nat, lo: real)
    requires i < |rest|
    ensures AcceptedAfter(Decisions(ts, [t0] + rest, limit, period), [t0] + rest, i + 2, lo)
      == (if Decide(ts, t0, limit, period).Accept? && t0 > lo then 1 else 0)
         + AcceptedAfter(Decisions(After(ts, t0, limit, period), rest, limit, period), rest, i + 1, lo)
  {
    DecisionsCons(ts, t0, rest, limit, period);
    AcceptedAfterCons(Decide(ts, t0, limit, period).Accept?, Decisions(After(ts, t0, limit, period), rest, limit, period),
                      t0, rest, i + 1, lo);
  }

  /**
   * The bound at call `i + 1`, from the bound at call `i` of the calls after
   * the first, taken on the list the first call leaves.
   */
  lemma AcceptedStep(ts: seq<real>, t0: real, rest: seq<real>, limit: int, period: real, i: nat)
    requires i < |rest| && t0 <= rest[i]
    requires BoundAt(After(ts, t0, limit, period), rest, limit, period, i)
    ensures BoundAt(ts, [t0] + rest, limit, period, i + 1)
  {
    var now := rest[i];
    var state := After(ts, t0, limit, period);
    var later := AcceptedAfter(Decisions(state, rest, limit, period), rest, i + 1, now - period);
    var n := AcceptedAfter(Decisions(ts, [t0] + rest, limit, period), [t0] + rest, i + 2, now - period);
    var atTs, atState := |Kept(ts, now, period)|, |Kept(state, now, period)|;
    BoundAtIs(state, rest, limit, period, i, now, later, atState);
    assert ([t0] + rest)[i + 1] == now;
    BoundAtIs(ts, [t0] + rest, limit, period, i + 1, now, n, atTs);
    AcceptedCons(ts, t0, rest, limit, period, i, now - period);
    assert later == 0 || later + atState <= limit;
    if Decide(ts, t0, limit, period).Accept? {
      KeptAfterAccept(ts, t0, now, limit, period);
      assert n == (if t0 > now - period then 1 else 0) + later;
      assert atState == atTs + (if t0 > now - period then 1 else 0) && atTs < limit;
      assert n == 0 || n + atTs <= limit;
    } else {
      assert state == ts && n == later;
      assert n == 0 || n + atTs <= limit;
    }
  }

  /** The bound holds at every call, from any stored list, while the clock does not run backwards. */
  lemma {:induction false} AcceptedWithStored(ts: seq<real>, times: seq<real>, limit: int, period: real)
    requires Nondecreasing(times)
    ensures forall i: nat :: i < |times| ==> BoundAt(ts, times, limit, period, i)
    decreases |times|
  {
    if times != [] {
      var t0, rest := times[0], times[1..];
      assert times == [t0] + rest;
      assert Nondecreasing(rest);
      AcceptedWithStored(After(ts, t0, limit, period), rest, limit, period);
      forall i: nat | i < |times|
        ensures BoundAt(ts, times, limit, period, i)
      {
        if i == 0 {
          AcceptedFirst(ts, t0, rest, limit, period);
        } else {
          assert t0 <= rest[i - 1];
          AcceptedStep(ts, t0, rest, limit, period, i - 1);
        }
      }
    }
  }

  /**
   * The promise of the decorator for any history from a clock that does not
   * run backwards: at no call have more than `limit` calls been let through
   * in the `period` seconds before it.
   */
  lemma RollingWindow(ts: seq<real>, times: seq<real>, limit: int, period: real)
    requires Nondecreasing(times) && limit >= 0
    ensures forall i :: 0 <= i < |times| ==>
      |set j | 0 <= j <= i && Decisions(ts, times, limit, period)[j] && times[j] > times[i] - period| <= limit
  {
    var d := Decisions(ts, times, limit, period);
    AcceptedWithStored(ts, times, limit, period);
    forall i | 0 <= i < |times|
      ensures |set j | 0 <= j <= i && d[j] && times[j] > times[i] - period| <= limit
    {
      assert BoundAt(ts, times, limit, period, i);
      AcceptedAfterIsCount(d, times, i + 1, times[i] - period);
      assert (set j | 0 <= j <= i && d[j] && times[j] > times[i] - period)
        == (set j | 0 <= j < i + 1 && d[j] && times[j] > times[i] - period);
    }
  }

  /**
   * The decorator's state: the cache entries it writes, one list of request
   * times per key. Entries written with a `period` timeout are modelled as
   * kept for ever; `ExpiryChangesNothing` shows that this decides the same.
   */
  class RateLimiter {
    const prefix: string
    const limit: int
    const period: real
    var cache: map<string, seq<real>>

    /** No stored list is longer than `limit`. */
    ghost predicate Valid()
      reads this
    {
      forall key :: key in cache ==> |cache[key]| <= limit
    }

    /** `rate_limit(key_prefix, limit, period)` applied to a view, before any request. */
    constructor (prefix: string, limit: int, period: real)
      ensures Valid()
      ensures this.prefix == prefix && this.limit == limit && this.period == period
      ensures cache == map[]
    {
      this.prefix := prefix;
      this.limit := limit;
      this.period := period;
      cache := map[];
    }

    /**
     * `wrapped_view` up to the call of the view: `allowed` tells whether the
     * view is called; a rejected call answers 429 and leaves the cache alone.
     */
    method Check(meta: Meta, now: real) returns (allowed: bool)
      requires Valid()
      modifies this
      ensures Valid()
      ensures var key := CacheKey(prefix, meta);
        match Decide(Recent(old(cache), key), now, limit, period)
        case Reject => !allowed && cache == old(cache)
        case Accept(stored) => allowed && cache == old(cache)[key := stored]
    {
      var key := CacheKey(prefix, meta);
      var requests := if key in cache then cache[key] else [];
      var kept: seq<real> := [];
      for i := 0 to |requests|
        invariant kept == Kept(requests[..i], now, period)
      {
        assert requests[..i + 1][..i] == requests[..i];
        if requests[i] > now - period {
          kept := kept + [requests[i]];
        }
      }
      assert requests[..|requests|] == requests;
      if |kept| >= limit {
        return false;
      }
      kept := kept + [now];
      cache := cache[key := kept];
      return true;
    }
  }
}
