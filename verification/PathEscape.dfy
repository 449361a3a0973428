/**
 Path-segment escaping in the Go SDK: percent-encode a segment (sections 2.1 and 3.3 of RFC 3986),
 then put back the jid characters that are safe in a path. Which bytes the standard library escapes is
 a parameter; all that is asked of it is that '%', '/', '?' and '#' are among them.
 */
module PathEscape {
  import opened Wrappers

  newtype Byte = x: int | 0 <= x < 256

  type Bytes = seq<Byte>

  const PERCENT: Byte := 0x25
  const SLASH: Byte := 0x2F
  const QUESTION: Byte := 0x3F
  const HASH: Byte := 0x23
  const AT: Byte := 0x40
  const COLON: Byte := 0x3A
  const PLUS: Byte := 0x2B

  type Escapes = Byte -> bool

  predicate Sound(escapes: Escapes) {
    escapes(PERCENT) && escapes(SLASH) && escapes(QUESTION) && escapes(HASH)
  }

  /** An upper-case hexadecimal digit. */
  function Hex(n: Byte): (h: Byte)
    requires n < 16
    ensures h != PERCENT && h != SLASH && h != QUESTION && h != HASH
  {
    if n < 10 then 0x30 + n else 0x37 + n
  }

  function Encoded(escapes: Escapes, c: Byte): Bytes {
    if escapes(c) then [PERCENT, Hex(c / 16), Hex(c % 16)] else [c]
  }

  function Encode(escapes: Escapes, s: Bytes): Bytes {
    if s == [] then [] else Encoded(escapes, s[0]) + Encode(escapes, s[1..])
  }

  /** The byte a restorer pattern stands for: "%40", "%3A" and "%2B" become '@', ':' and '+'. */
  function Restored(t: Bytes): Option<Byte> {
    if |t| >= 3 && t[0] == PERCENT then
      if t[1] == 0x34 && t[2] == 0x30 then Some(AT)
      else if t[1] == 0x33 && t[2] == 0x41 then Some(COLON)
      else if t[1] == 0x32 && t[2] == 0x42 then Some(PLUS)
      else None
    else None
  }

  /** One left-to-right pass of the replacer. */
  function Restore(t: Bytes): Bytes
    decreases |t|
  {
    if t == [] then []
    else if Restored(t).Some? then [Restored(t).value] + Restore(t[3..])
    else [t[0]] + Restore(t[1..])
  }

  function PathEscape(escapes: Escapes, segment: Bytes): Bytes {
    Restore(Encode(escapes, segment))
  }

  function HexValue(h: Byte): Option<Byte> {
    if 0x30 <= h <= 0x39 then Some(h - 0x30)
    else if 0x41 <= h <= 0x46 then Some(h - 0x37)
    else if 0x61 <= h <= 0x66 then Some(h - 0x57)
    else None
  }

  /** Percent-decoding as a server does it; None for a malformed escape. */
  function Decode(t: Bytes): Option<Bytes>
    decreases |t|
  {
    if t == [] then Some([])
    else if t[0] == PERCENT then
      if |t| >= 3 && HexValue(t[1]).Some? && HexValue(t[2]).Some? then
        match Decode(t[3..])
        case None => None
        case Some(rest) => Some([HexValue(t[1]).value * 16 + HexValue(t[2]).value] + rest)
      else None
    else
      match Decode(t[1..])
      case None => None
      case Some(rest) => Some([t[0]] + rest)
  }

  // ---------------------------------------------------------------- the restorer only widens the safe set

  function Narrowed(escapes: Escapes): Escapes {
    c => escapes(c) && c != AT && c != COLON && c != PLUS
  }

  /** The pass meets the escape of one byte: it matches that escape as a whole, or nothing in it. */
  lemma RestoreToken(escapes: Escapes, c: Byte, rest: Bytes)
    requires escapes(PERCENT)
    ensures Restore(Encoded(escapes, c) + rest) == Encoded(Narrowed(escapes), c) + Restore(rest)
  {
    var t := Encoded(escapes, c) + rest;
    if escapes(c) {
      var h, l := Hex(c / 16), Hex(c % 16);
      assert c == (c / 16) * 16 + c % 16;
      assert t[3..] == rest;
      if c != AT && c != COLON && c != PLUS {
        assert t[1..] == [h, l] + rest && ([h, l] + rest)[1..] == [l] + rest && ([l] + rest)[1..] == rest;
        assert Restore([l] + rest) == [l] + Restore(rest);
        assert Restore([h, l] + rest) == [h] + Restore([l] + rest);
        assert Restored(t).None?;
        assert [PERCENT] + ([h] + ([l] + Restore(rest))) == [PERCENT, h, l] + Restore(rest);
      }
    } else {
      assert t[1..] == rest;
    }
  }

  lemma {:induction false} RestoreEncoded(escapes: Escapes, s: Bytes)
    requires escapes(PERCENT)
    ensures PathEscape(escapes, s) == Encode(Narrowed(escapes), s)
  {
    if s != [] {
      RestoreToken(escapes, s[0], Encode(escapes, s[1..]));
      RestoreEncoded(escapes, s[1..]);
    }
  }

  lemma {:induction false} DecodeEncoded(escapes: Escapes, s: Bytes)
    requires escapes(PERCENT)
    ensures Decode(Encode(escapes, s)) == Some(s)
  {
    if s != [] {
      var c, rest := s[0], Encode(escapes, s[1..]);
      var t := Encoded(escapes, c) + rest;
      DecodeEncoded(escapes, s[1..]);
      assert s == [c] + s[1..];
      if escapes(c) {
        assert t[3..] == rest;
        assert c == (c / 16) * 16 + c % 16;
      } else {
        assert t[1..] == rest;
      }
    }
  }

  /** Escaping loses nothing: a server decodes the very bytes the caller passed. */
  lemma RoundTrip(escapes: Escapes, s: Bytes)
    requires escapes(PERCENT)
    ensures Decode(PathEscape(escapes, s)) == Some(s)
  {
    RestoreEncoded(escapes, s);
    DecodeEncoded(Narrowed(escapes), s);
  }

  /** A segment stays one segment: nothing in it can end it or start a query or fragment. */
  lemma {:induction false} StaysInSegment(escapes: Escapes, s: Bytes)
    requires Sound(escapes)
    ensures forall b :: b in PathEscape(escapes, s) ==> b != SLASH && b != QUESTION && b != HASH
  {
    RestoreEncoded(escapes, s);
    if s != [] {
      StaysInSegment(escapes, s[1..]);
      RestoreEncoded(escapes, s[1..]);
    }
  }

  // ---------------------------------------------------------------- paths

  const SESSIONS: Bytes := [0x2F, 0x61, 0x70, 0x69, 0x2F, 0x73, 0x65, 0x73, 0x73, 0x69, 0x6F, 0x6E, 0x73, 0x2F]
  const MESSAGES: Bytes := [0x6D, 0x65, 0x73, 0x73, 0x61, 0x67, 0x65, 0x73]
  const MEDIA: Bytes := [0x6D, 0x65, 0x64, 0x69, 0x61]
  const REACTIONS: Bytes := [0x72, 0x65, 0x61, 0x63, 0x74, 0x69, 0x6F, 0x6E, 0x73]

  function BasePath(escapes: Escapes, session: Bytes): Bytes {
    SESSIONS + PathEscape(escapes, session) + [SLASH] + MESSAGES
  }

  function MessagePath(escapes: Escapes, session: Bytes, chat: Bytes, message: Bytes, leaf: Bytes): Bytes {
    BasePath(escapes, session)
    + [SLASH] + PathEscape(escapes, chat) + [SLASH] + PathEscape(escapes, message) + [SLASH] + leaf
  }

  function MediaPath(escapes: Escapes, session: Bytes, chat: Bytes, message: Bytes): Bytes {
    MessagePath(escapes, session, chat, message, MEDIA)
  }

  function ReactionsPath(escapes: Escapes, session: Bytes, chat: Bytes, message: Bytes): Bytes {
    MessagePath(escapes, session, chat, message, REACTIONS)
  }

  /** A slash splits a path in one way only when what precedes it holds none. */
  lemma SplitAtSlash(a: Bytes, x: Bytes, b: Bytes, y: Bytes)
    requires SLASH !in a && SLASH !in b && a + [SLASH] + x == b + [SLASH] + y
    ensures a == b && x == y
  {
    var s := a + [SLASH] + x;
    var t := b + [SLASH] + y;
    assert s[|a|] == SLASH && t[|b|] == SLASH;
    assert forall i :: 0 <= i < |a| ==> s[i] == a[i];
    assert forall i :: 0 <= i < |b| ==> t[i] == b[i];
    assert |a| == |b|;
    assert s[..|a|] == a && t[..|b|] == b;
    assert s[|a| + 1..] == x && t[|b| + 1..] == y;
  }

  function Tail(escapes: Escapes, chat: Bytes, message: Bytes, leaf: Bytes): Bytes {
    PathEscape(escapes, chat) + [SLASH] + (PathEscape(escapes, message) + [SLASH] + leaf)
  }

  lemma Regroup(a: Bytes, b: Bytes, c: Bytes)
    ensures (a + b) + c == a + (b + c)
  {
  }

  lemma PathShape(escapes: Escapes, session: Bytes, chat: Bytes, message: Bytes, leaf: Bytes)
    ensures MessagePath(escapes, session, chat, message, leaf)
         == SESSIONS + (PathEscape(escapes, session) + [SLASH]
                        + (MESSAGES + [SLASH] + Tail(escapes, chat, message, leaf)))
  {
    var s, c, m := PathEscape(escapes, session), PathEscape(escapes, chat), PathEscape(escapes, message);
    Regroup7(SESSIONS, s, MESSAGES, c, m, leaf, [SLASH]);
  }

  /** Seven concatenations from the left are the same ones from the right. */
  lemma Regroup7(p: Bytes, s: Bytes, q: Bytes, c: Bytes, m: Bytes, leaf: Bytes, d: Bytes)
    ensures p + s + d + q + d + c + d + m + d + leaf == p + (s + d + (q + d + (c + d + (m + d + leaf))))
  {
    calc {
      p + s + d + q + d + c + d + m + d + leaf;
      { Regroup(p + s + d + q + d + c + d + m, d, leaf); Regroup(p + s + d + q + d + c + d, m, d + leaf);
        Regroup(m, d, leaf); }
      p + s + d + q + d + c + d + (m + d + leaf);
      { Regroup(p + s + d + q + d + c, d, m + d + leaf); Regroup(p + s + d + q + d, c, d + (m + d + leaf));
        Regroup(c, d, m + d + leaf); }
      p + s + d + q + d + (c + d + (m + d + leaf));
      { var x := c + d + (m + d + leaf);
        Regroup(p + s + d + q, d, x); Regroup(p + s + d, q, d + x); Regroup(q, d, x); }
      p + s + d + (q + d + (c + d + (m + d + leaf)));
      { var y := q + d + (c + d + (m + d + leaf));
        Regroup(p + s, d, y); Regroup(p, s, d + y); Regroup(s, d, y); }
      p + (s + d + (q + d + (c + d + (m + d + leaf))));
    }
  }

  lemma DropPrefix(p: Bytes, x: Bytes, y: Bytes)
    requires p + x == p + y
    ensures x == y
  {
    assert (p + x)[|p|..] == x && (p + y)[|p|..] == y;
  }

  /** Different sessions, chats, messages or endpoints never meet in one path. */
  lemma PathsAreDistinct(
    escapes: Escapes,
    session: Bytes, chat: Bytes, message: Bytes, leaf: Bytes,
    session': Bytes, chat': Bytes, message': Bytes, leaf': Bytes)
    requires Sound(escapes)
    requires MessagePath(escapes, session, chat, message, leaf)
          == MessagePath(escapes, session', chat', message', leaf')
    ensures session == session' && chat == chat' && message == message' && leaf == leaf'
  {
    PathShape(escapes, session, chat, message, leaf);
    PathShape(escapes, session', chat', message', leaf');
    var rest, rest' := MESSAGES + [SLASH] + Tail(escapes, chat, message, leaf),
                       MESSAGES + [SLASH] + Tail(escapes, chat', message', leaf');
    DropPrefix(SESSIONS, PathEscape(escapes, session) + [SLASH] + rest,
               PathEscape(escapes, session') + [SLASH] + rest');
    StaysInSegment(escapes, session);
    StaysInSegment(escapes, session');
    SplitAtSlash(PathEscape(escapes, session), rest, PathEscape(escapes, session'), rest');
    DropPrefix(MESSAGES + [SLASH], Tail(escapes, chat, message, leaf), Tail(escapes, chat', message', leaf'));
    StaysInSegment(escapes, chat);
    StaysInSegment(escapes, chat');
    SplitAtSlash(PathEscape(escapes, chat), PathEscape(escapes, message) + [SLASH] + leaf,
                 PathEscape(escapes, chat'), PathEscape(escapes, message') + [SLASH] + leaf');
    StaysInSegment(escapes, message);
    StaysInSegment(escapes, message');
    SplitAtSlash(PathEscape(escapes, message), leaf, PathEscape(escapes, message'), leaf');
    RoundTrip(escapes, session);
    RoundTrip(escapes, session');
    RoundTrip(escapes, chat);
    RoundTrip(escapes, chat');
    RoundTrip(escapes, message);
    RoundTrip(escapes, message');
  }

  // ---------------------------------------------------------------- what a server sees

  /** The path cut at every slash. */
  function Segments(t: Bytes): (parts: seq<Bytes>)
    ensures |parts| >= 1
  {
    if t == [] then [[]]
    else
      var rest := Segments(t[1..]);
      if t[0] == SLASH then [[]] + rest else [[t[0]] + rest[0]] + rest[1..]
  }

  lemma {:induction false} SegmentEnds(a: Bytes, rest: Bytes)
    requires SLASH !in a
    ensures Segments(a + [SLASH] + rest) == [a] + Segments(rest)
  {
    var t := a + [SLASH] + rest;
    if a == [] {
      assert t[1..] == rest;
    } else {
      assert t[1..] == a[1..] + [SLASH] + rest;
      SegmentEnds(a[1..], rest);
      assert [a[0]] + a[1..] == a;
    }
  }

  lemma {:induction false} LastSegment(a: Bytes)
    requires SLASH !in a
    ensures Segments(a) == [a]
  {
    if a != [] {
      LastSegment(a[1..]);
      assert [a[0]] + a[1..] == a;
    }
  }

  /** The bytes of an ASCII text. */
  function Ascii(s: string): Bytes
    requires forall c :: c in s ==> c as int < 128
  {
    seq(|s|, i requires 0 <= i < |s| => assert s[i] in s; s[i] as int as Byte)
  }

  lemma FixedSegments()
    ensures SESSIONS == [SLASH] + Ascii("api") + [SLASH] + Ascii("sessions") + [SLASH]
    ensures MESSAGES == Ascii("messages") && MEDIA == Ascii("media") && REACTIONS == Ascii("reactions")
    ensures SLASH !in Ascii("api") && SLASH !in Ascii("sessions") && SLASH !in MESSAGES
    ensures SLASH !in MEDIA && SLASH !in REACTIONS
  {
  }

  /**
   Cut at the slashes, a message path is /api/sessions/{session}/messages/{chat}/{message}/ and the
   endpoint, each variable segment escaped, and each decoding to what the caller passed.
   */
  lemma MessagePathSegments(escapes: Escapes, session: Bytes, chat: Bytes, message: Bytes, leaf: Bytes)
    requires Sound(escapes) && SLASH !in leaf
    ensures var parts := Segments(MessagePath(escapes, session, chat, message, leaf));
            && |parts| == 8
            && parts[0] == [] && parts[1] == Ascii("api") && parts[2] == Ascii("sessions")
            && Decode(parts[3]) == Some(session) && parts[4] == Ascii("messages")
            && Decode(parts[5]) == Some(chat) && Decode(parts[6]) == Some(message) && parts[7] == leaf
  {
    var s, c, m := PathEscape(escapes, session), PathEscape(escapes, chat), PathEscape(escapes, message);
    FixedSegments();
    StaysInSegment(escapes, session);
    StaysInSegment(escapes, chat);
    StaysInSegment(escapes, message);
    RoundTrip(escapes, session);
    RoundTrip(escapes, chat);
    RoundTrip(escapes, message);
    PathShape(escapes, session, chat, message, leaf);
    CutPath(s, c, m, leaf);
  }

  lemma CutPath(s: Bytes, c: Bytes, m: Bytes, leaf: Bytes)
    requires SLASH !in s && SLASH !in c && SLASH !in m && SLASH !in leaf
    ensures Segments(SESSIONS + (s + [SLASH] + (MESSAGES + [SLASH] + (c + [SLASH] + (m + [SLASH] + leaf)))))
         == [[], Ascii("api"), Ascii("sessions"), s, Ascii("messages"), c, m, leaf]
  {
    FixedSegments();
    LastSegment(leaf);
    SegmentEnds(m, leaf);
    SegmentEnds(c, m + [SLASH] + leaf);
    SegmentEnds(MESSAGES, c + [SLASH] + (m + [SLASH] + leaf));
    var tail := s + [SLASH] + (MESSAGES + [SLASH] + (c + [SLASH] + (m + [SLASH] + leaf)));
    SegmentEnds(s, MESSAGES + [SLASH] + (c + [SLASH] + (m + [SLASH] + leaf)));
    CutFixed(tail);
  }

  lemma CutFixed(tail: Bytes)
    ensures Segments(SESSIONS + tail) == [[], Ascii("api"), Ascii("sessions")] + Segments(tail)
  {
    FixedSegments();
    var a, b := Ascii("api"), Ascii("sessions");
    assert SESSIONS + tail == [] + [SLASH] + (a + [SLASH] + (b + [SLASH] + tail));
    SegmentEnds([], a + [SLASH] + (b + [SLASH] + tail));
    SegmentEnds(a, b + [SLASH] + tail);
    SegmentEnds(b, tail);
  }

  /** The two endpoints differ in their last segment. */
  lemma EndpointSegments(escapes: Escapes, session: Bytes, chat: Bytes, message: Bytes)
    requires Sound(escapes)
    ensures var media := Segments(MediaPath(escapes, session, chat, message));
            |media| == 8 && media[7] == Ascii("media")
    ensures var reactions := Segments(ReactionsPath(escapes, session, chat, message));
            |reactions| == 8 && reactions[7] == Ascii("reactions")
  {
    FixedSegments();
    MessagePathSegments(escapes, session, chat, message, MEDIA);
    MessagePathSegments(escapes, session, chat, message, REACTIONS);
  }
}
