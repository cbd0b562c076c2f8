/**
  Client identity: the left-most entry of the `x-forwarded-for` header,
  trimmed, when the header is sent and non-empty; the peer host otherwise.
 */
module ClientIp {
  import opened Optional

  /**
    The parts of an incoming request the identity is taken from: the
    `x-forwarded-for` header, if sent, and the peer's host, if the server
    knows the peer at all.
   */
  datatype Request = Request(forwardedFor: Option<string>, peerHost: Option<string>)

  /**
    The characters Python's argument-less `str.strip()` removes: the ASCII
    controls TAB to CR and FS to US, SPACE, NEL, NBSP, and the Unicode
    space and separator characters.
   */
  predicate IsSpace(c: char)
  {
    ('\U{9}' <= c <= '\U{D}') || ('\U{1C}' <= c <= '\U{20}') ||
    c == '\U{85}' || c == '\U{A0}' || c == '\U{1680}' ||
    ('\U{2000}' <= c <= '\U{200A}') || c == '\U{2028}' || c == '\U{2029}' ||
    c == '\U{202F}' || c == '\U{205F}' || c == '\U{3000}'
  }

  predicate AllSpace(s: string)
  {
    forall i :: 0 <= i < |s| ==> IsSpace(s[i])
  }

  /** Neither starts nor ends with whitespace. */
  predicate NoOuterSpace(s: string)
  {
    s == [] || (!IsSpace(s[0]) && !IsSpace(s[|s| - 1]))
  }

  /**
    The text before the first comma, i.e. `s.split(",")[0]`: a prefix of `s`
    with no comma in it that runs up to a comma or to the end of `s`.
   */
  function FirstToken(s: string): (r: string)
    ensures |r| <= |s| && r == s[..|r|]
    ensures ',' !in r
    ensures |r| < |s| ==> s[|r|] == ','
  {
    if s == [] || s[0] == ',' then [] else [s[0]] + FirstToken(s[1..])
  }

  /** `s` without its leading whitespace. */
  function TrimStart(s: string): (r: string)
    ensures |r| <= |s| && r == s[|s| - |r|..]
    ensures AllSpace(s[..|s| - |r|])
    ensures r == [] || !IsSpace(r[0])
  {
    if s != [] && IsSpace(s[0]) then
      var r := TrimStart(s[1..]);
      assert s[..|s| - |r|] == [s[0]] + s[1..][..|s| - 1 - |r|];
      r
    else s
  }

  /** `s` without its trailing whitespace. */
  function TrimEnd(s: string): (r: string)
    ensures |r| <= |s| && r == s[..|r|]
    ensures AllSpace(s[|r|..])
    ensures r == [] || !IsSpace(r[|r| - 1])
  {
    if s != [] && IsSpace(s[|s| - 1]) then
      var r := TrimEnd(s[..|s| - 1]);
      assert s[|r|..] == s[..|s| - 1][|r|..] + [s[|s| - 1]];
      r
    else s
  }

  /**
    `r` is what `t.strip()` leaves: a slice `t[i..j]` with only whitespace
    before `i` and after `j`, which neither begins nor ends with whitespace.
   */
  ghost predicate IsStripOf(r: string, t: string)
  {
    NoOuterSpace(r) &&
    exists i, j :: 0 <= i <= j <= |t| && r == t[i..j] && AllSpace(t[..i]) && AllSpace(t[j..])
  }

  /** `s.strip()`. */
  function Strip(s: string): (r: string)
    ensures IsStripOf(r, s)
    ensures forall k :: 0 <= k < |r| ==> r[k] in s
  {
    var t := TrimStart(s);
    var r := TrimEnd(t);
    var i := |s| - |t|;
    assert r == s[i..i + |r|];
    assert s[i + |r|..] == t[|r|..];
    r
  }

  /**
    The client identity of a request. A header that is sent and non-empty
    wins, even when it holds only whitespace and so yields the empty string.
    Otherwise the peer host is used; `None` stands for the failure of reading
    the host of a peer the server does not know.
   */
  function GetClientIp(req: Request): (ip: Option<string>)
    ensures (req.forwardedFor.None? || req.forwardedFor.value == "") ==> ip == req.peerHost
    ensures req.forwardedFor.Some? && req.forwardedFor.value != "" ==>
      ip.Some? && ',' !in ip.value && IsStripOf(ip.value, FirstToken(req.forwardedFor.value))
  {
    match req.forwardedFor
    case Some(xff) =>
      if xff != "" then
        var tok := FirstToken(xff);
        var ip := Strip(tok);
        assert forall k :: 0 <= k < |ip| ==> ip[k] != ',';
        Some(ip)
      else req.peerHost
    case None => req.peerHost
  }

  /** A proxy chain yields its left-most address, without the space after it. */
  lemma ProxyChainExample()
    ensures GetClientIp(Request(Some("9.9.9.9, 10.0.0.1"), None)) == Some("9.9.9.9")
  {
    var h := "9.9.9.9, 10.0.0.1";
    var tok := FirstToken(h);
    assert |tok| == 7 by {
      assert h[7] == ',';
      assert forall k :: 0 <= k < 7 ==> h[k] != ',';
    }
    assert tok == h[..7] == "9.9.9.9";
    assert !IsSpace(tok[0]) && !IsSpace(tok[6]);
    assert TrimStart(tok) == tok;
    assert TrimEnd(tok) == tok;
  }

  /** Without the header the peer host is used as it is; without a peer either, the lookup fails. */
  lemma NoHeaderFallsBack(peer: string)
    ensures GetClientIp(Request(None, Some(peer))) == Some(peer)
    ensures GetClientIp(Request(Some(""), Some(peer))) == Some(peer)
    ensures GetClientIp(Request(None, None)) == None
  {
  }

  /** A header of whitespace only is still sent, so it yields the empty identity, not the peer host. */
  lemma BlankHeaderGivesEmpty(peer: string)
    ensures GetClientIp(Request(Some(" "), Some(peer))) == Some("")
  {
  }

  /** Stripping is idempotent: an identity already stripped is its own strip. */
  lemma StripIdempotent(s: string)
    ensures Strip(Strip(s)) == Strip(s)
  {
  }
}
