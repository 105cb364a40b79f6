/**
 * A stand-in for `jsonwebtoken`'s `sign` and `verify` with a shared secret.
 * A token here is `payload.signature`: the escaped `username` claim, a dot,
 * and the escaped secret. Escaping removes every space and dot from both
 * parts, so a token never contains a space and always splits into two parts
 * at its one dot. The model keeps the two facts the server relies on: a
 * token verifies back to the claim it was signed with, and only under the
 * secret it was signed with. It does not model unforgeability.
 */
module Jwt {
  import opened Optional
  import opened Fields

  /** The token's one claim: `{ username }`. */
  datatype Claims = Claims(username: string)

  function EscapeChar(c: char): string
  {
    if c == ' ' then "~s" else if c == '.' then "~d" else if c == '~' then "~~" else [c]
  }

  function Escape(s: string): (t: string)
    ensures ' ' !in t && '.' !in t
    decreases |s|
  {
    if s == [] then [] else EscapeChar(s[0]) + Escape(s[1..])
  }

  function Prepend(c: char, o: Option<string>): Option<string>
  {
    match o
    case None => None
    case Some(s) => Some([c] + s)
  }

  /** Reverses `Escape`; fails on a raw space or dot and on an unknown escape. */
  function Unescape(t: string): Option<string>
    decreases |t|
  {
    if t == [] then Some([])
    else if t[0] == ' ' || t[0] == '.' then None
    else if t[0] != '~' then Prepend(t[0], Unescape(t[1..]))
    else if |t| < 2 then None
    else if t[1] == 's' then Prepend(' ', Unescape(t[2..]))
    else if t[1] == 'd' then Prepend('.', Unescape(t[2..]))
    else if t[1] == '~' then Prepend('~', Unescape(t[2..]))
    else None
  }

  /** Unescaping reads one escaped character back off the front. */
  lemma UnescapeFront(c: char, rest: string)
    ensures Unescape(EscapeChar(c) + rest) == Prepend(c, Unescape(rest))
  {
    var t := EscapeChar(c) + rest;
    if c == ' ' || c == '.' || c == '~' {
      assert t[0] == '~' && t[2..] == rest;
    } else {
      assert t[0] == c && t[1..] == rest;
    }
  }

  lemma {:induction false} UnescapeEscape(s: string)
    ensures Unescape(Escape(s)) == Some(s)
    decreases |s|
  {
    if s != [] {
      UnescapeFront(s[0], Escape(s[1..]));
      UnescapeEscape(s[1..]);
      assert s == [s[0]] + s[1..];
    }
  }

  /**
   * Escaping is canonical: the only string that unescapes to `s` is `Escape(s)`.
   * This describes only the stand-in's encoding; a real token carries `iat`.
   */
  lemma {:induction false} EscapeUnescape(t: string, s: string)
    requires Unescape(t) == Some(s)
    ensures Escape(s) == t
    decreases |t|
  {
    if t != [] {
      if t[0] != '~' {
        var s' := Unescape(t[1..]).value;
        EscapeUnescape(t[1..], s');
        assert s == [t[0]] + s' && s[1..] == s';
        assert t == [t[0]] + t[1..];
      } else {
        var s' := Unescape(t[2..]).value;
        EscapeUnescape(t[2..], s');
        assert s[1..] == s';
        assert t == t[..2] + t[2..];
      }
    }
  }

  /** `jwt.sign({ username }, key)`. */
  function Sign(key: string, c: Claims): (token: string)
    ensures token != "" && ' ' !in token
  {
    Escape(c.username) + "." + Escape(key)
  }

  /** `jwt.verify(token, key)`: the claims, or `None` where the library reports an error. */
  function Verify(key: string, token: string): Option<Claims>
  {
    var parts := Split(token, '.');
    if |parts| == 2 && Unescape(parts[1]) == Some(key) then
      match Unescape(parts[0])
      case Some(u) => Some(Claims(u))
      case None => None
    else None
  }

  lemma SplitSigned(key: string, c: Claims)
    ensures Split(Sign(key, c), '.') == [Escape(c.username), Escape(key)]
  {
    var parts := [Escape(c.username), Escape(key)];
    assert Join(parts, '.') == Sign(key, c);
    SplitJoin(parts, '.');
  }

  /** Round trip: a token verifies under its own secret to the claims it was signed with. */
  lemma VerifySign(key: string, c: Claims)
    ensures Verify(key, Sign(key, c)) == Some(c)
  {
    SplitSigned(key, c);
    UnescapeEscape(key);
    UnescapeEscape(c.username);
  }

  /** A token signed under one secret does not verify under another. */
  lemma VerifyOtherKey(signedWith: string, key: string, c: Claims)
    requires signedWith != key
    ensures Verify(key, Sign(signedWith, c)) == None
  {
    SplitSigned(signedWith, c);
    UnescapeEscape(signedWith);
  }

  /**
   * The tokens that verify to `c` under `key` are exactly the one `Sign(key, c)`.
   * This holds only for the stand-in: `jwt.sign` issues a different token on
   * every login, all of which verify to the same claims.
   */
  lemma VerifyExactlySigned(key: string, token: string, c: Claims)
    ensures Verify(key, token) == Some(c) <==> token == Sign(key, c)
  {
    if Verify(key, token) == Some(c) {
      var parts := Split(token, '.');
      EscapeUnescape(parts[1], key);
      EscapeUnescape(parts[0], c.username);
      assert token == Join(parts, '.') == parts[0] + "." + parts[1];
    }
    if token == Sign(key, c) {
      VerifySign(key, c);
    }
  }
}
