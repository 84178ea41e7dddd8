/** How service keys, identifiers and windows are written as Redis keys, and why they can be told apart. */
module KeyEncoding {
  import opened Prelude

  const PREFIX_COUNTER: string := "ratelimit:counter:"
  const PREFIX_WHITELIST: string := "ratelimit:whitelist:"
  const PREFIX_LIMIT: string := "ratelimit:limit:"

  function FullKey(key: string, identifier: string): string {
    key + ":" + identifier
  }

  function CounterKey(fullKey: string): string {
    PREFIX_COUNTER + fullKey
  }

  function WhitelistKey(fullKey: string): string {
    PREFIX_WHITELIST + fullKey
  }

  function LimitKey(fullKey: string, window: string): string {
    PREFIX_LIMIT + fullKey + ":" + window
  }

  predicate IdentifierChar(c: char) {
    'a' <= c <= 'z' || 'A' <= c <= 'Z' || '0' <= c <= '9' || c == '_' || c == '-'
  }

  predicate ValidIdentifier(identifier: string) {
    1 <= |identifier| <= 100 && forall i :: 0 <= i < |identifier| ==> IdentifierChar(identifier[i])
  }

  predicate ValidWindow(window: string) {
    window == "second" || window == "minute" || window == "hour" || window == "day"
  }

  predicate ColonFree(s: string) {
    ':' !in s
  }

  /** What the validator lets through never contains a colon. */
  lemma ValidPartsAreColonFree(identifier: string, window: string)
    ensures ValidIdentifier(identifier) ==> ColonFree(identifier)
    ensures ValidWindow(window) ==> ColonFree(window)
  {
  }

  // ---------------------------------------------------------------- decoding

  /** The text before and after the last colon, if there is one. */
  function SplitLast(s: string): (r: Option<(string, string)>)
    ensures r == None <==> ColonFree(s)
    ensures r.Some? ==> s == r.value.0 + ":" + r.value.1 && ColonFree(r.value.1)
  {
    if s == [] then None
    else
      var n := |s| - 1;
      if s[n] == ':' then
        assert s == s[..n] + ":" + "";
        Some((s[..n], ""))
      else
        assert s == s[..n] + [s[n]];
        match SplitLast(s[..n])
        case None => None
        case Some((head, tail)) => Some((head, tail + [s[n]]))
  }

  function Strip(prefix: string, s: string): Option<string> {
    if prefix <= s then Some(s[|prefix|..]) else None
  }

  function DecodeFullKey(s: string): Option<(string, string)> {
    SplitLast(s)
  }

  /** The key, identifier and window a limit key was built from. */
  function DecodeLimitKey(s: string): Option<(string, string, string)> {
    match Strip(PREFIX_LIMIT, s)
    case None => None
    case Some(body) =>
      match SplitLast(body)
      case None => None
      case Some((fullKey, window)) =>
        match DecodeFullKey(fullKey)
        case None => None
        case Some((key, identifier)) => Some((key, identifier, window))
  }

  lemma {:induction false} SplitLastOfJoin(head: string, tail: string)
    requires ColonFree(tail)
    ensures SplitLast(head + ":" + tail) == Some((head, tail))
  {
    var s := head + ":" + tail;
    var (head', tail') := SplitLast(s).value;
    assert s[|head|] == ':' && s[|head'|] == ':';
    assert |head| == |head'|;
    assert head == s[..|head|] && tail == s[|head| + 1..];
    assert head' == s[..|head'|] && tail' == s[|head'| + 1..];
  }

  lemma StripPrefix(prefix: string, body: string)
    ensures Strip(prefix, prefix + body) == Some(body)
  {
  }

  /** A limit key gives back its three parts, whatever the key itself contains, exactly when the other two have no colon. */
  lemma {:induction false} LimitKeyRoundTrip(key: string, identifier: string, window: string)
    ensures DecodeLimitKey("ratelimit:limit:" + key + ":" + identifier + ":" + window) == Some((key, identifier, window)) <==>
              ColonFree(identifier) && ColonFree(window)
    ensures LimitKey(FullKey(key, identifier), window) == "ratelimit:limit:" + key + ":" + identifier + ":" + window
  {
    var body := FullKey(key, identifier) + ":" + window;
    var limitKey := "ratelimit:limit:" + key + ":" + identifier + ":" + window;
    assert LimitKey(FullKey(key, identifier), window) == PREFIX_LIMIT + body == limitKey;
    StripPrefix(PREFIX_LIMIT, body);
    if ColonFree(identifier) && ColonFree(window) {
      SplitLastOfJoin(FullKey(key, identifier), window);
      SplitLastOfJoin(key, identifier);
    }
  }

  /** Counter and whitelist keys give back their two parts exactly when the identifier has no colon. */
  lemma {:induction false} PlainKeyRoundTrip(key: string, identifier: string)
    ensures DecodeFullKey(FullKey(key, identifier)) == Some((key, identifier)) <==> ColonFree(identifier)
    ensures Strip("ratelimit:counter:", CounterKey(FullKey(key, identifier))) == Some(key + ":" + identifier)
    ensures Strip("ratelimit:whitelist:", WhitelistKey(FullKey(key, identifier))) == Some(key + ":" + identifier)
  {
    if ColonFree(identifier) {
      SplitLastOfJoin(key, identifier);
    }
  }

  /** Limit keys are one key exactly when the joined full key and window are the same text. */
  predicate SameLimitKey(full1: string, window1: string, full2: string, window2: string) {
    full1 + ":" + window1 == full2 + ":" + window2
  }

  lemma LimitKeysEqual(full1: string, window1: string, full2: string, window2: string)
    ensures LimitKey(full1, window1) == LimitKey(full2, window2) <==> SameLimitKey(full1, window1, full2, window2)
  {
    var body1, body2 := full1 + ":" + window1, full2 + ":" + window2;
    assert LimitKey(full1, window1) == PREFIX_LIMIT + body1;
    assert LimitKey(full2, window2) == PREFIX_LIMIT + body2;
    StripPrefix(PREFIX_LIMIT, body1);
    StripPrefix(PREFIX_LIMIT, body2);
  }

  /** For windows without a colon, a limit key determines the full key and the window, whatever the full key is. */
  lemma {:induction false} LimitKeyInjective(full1: string, window1: string, full2: string, window2: string)
    requires ColonFree(window1) && ColonFree(window2)
    ensures LimitKey(full1, window1) == LimitKey(full2, window2) <==> full1 == full2 && window1 == window2
  {
    if LimitKey(full1, window1) == LimitKey(full2, window2) {
      var body1, body2 := full1 + ":" + window1, full2 + ":" + window2;
      assert LimitKey(full1, window1) == PREFIX_LIMIT + body1;
      assert LimitKey(full2, window2) == PREFIX_LIMIT + body2;
      StripPrefix(PREFIX_LIMIT, body1);
      StripPrefix(PREFIX_LIMIT, body2);
      SplitLastOfJoin(full1, window1);
      SplitLastOfJoin(full2, window2);
    }
  }

  lemma PlainKeysInjective(full1: string, full2: string)
    ensures CounterKey(full1) == CounterKey(full2) <==> full1 == full2
    ensures WhitelistKey(full1) == WhitelistKey(full2) <==> full1 == full2
  {
    StripPrefix(PREFIX_COUNTER, full1);
    StripPrefix(PREFIX_COUNTER, full2);
    StripPrefix(PREFIX_WHITELIST, full1);
    StripPrefix(PREFIX_WHITELIST, full2);
  }

  /** No counter, whitelist or limit key is ever a key of another kind. */
  lemma NamespacesDisjoint(a: string, b: string, c: string, window: string)
    ensures CounterKey(a) != WhitelistKey(b)
    ensures CounterKey(a) != LimitKey(c, window)
    ensures WhitelistKey(b) != LimitKey(c, window)
  {
    assert CounterKey(a)[10] == 'c';
    assert WhitelistKey(b)[10] == 'w';
    assert LimitKey(c, window)[10] == 'l';
  }

  /**
   Exactly when two pairs share a full key: they are equal, or the longer identifier carries the
   end of the other key in front of a colon. Validated identifiers carry no colon.
   */
  lemma {:induction false} FullKeyCollision(key1: string, id1: string, key2: string, id2: string)
    requires |id1| <= |id2|
    ensures FullKey(key1, id1) == FullKey(key2, id2) <==>
            (key1 == key2 && id1 == id2) || exists mid :: id2 == mid + ":" + id1 && key1 == key2 + ":" + mid
  {
    var s1, s2 := FullKey(key1, id1), FullKey(key2, id2);
    if mid :| id2 == mid + ":" + id1 && key1 == key2 + ":" + mid {
      assert s1 == key2 + ":" + mid + ":" + id1 == s2;
    }
    if s1 == s2 {
      assert id1 == s1[|key1| + 1..] && id2 == s1[|key2| + 1..];
      assert key1 == s1[..|key1|] && key2 == s1[..|key2|];
      if |id1| < |id2| {
        var mid := s1[|key2| + 1..|key1|];
        assert s1[|key1|] == ':' && s1[|key2|] == ':';
        assert id2 == mid + ":" + id1;
        assert key1 == key2 + ":" + mid;
      }
    }
  }

  /** For identifiers without a colon the full key determines both parts. */
  lemma {:induction false} FullKeyInjective(key1: string, id1: string, key2: string, id2: string)
    requires ColonFree(id1) && ColonFree(id2)
    ensures key1 + ":" + id1 == key2 + ":" + id2 <==> key1 == key2 && id1 == id2
    ensures FullKey(key1, id1) == FullKey(key2, id2) <==> key1 == key2 && id1 == id2
  {
    PlainKeyRoundTrip(key1, id1);
    PlainKeyRoundTrip(key2, id2);
  }
}
