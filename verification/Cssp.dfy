/** The requests of CredSSP: values wrapped in BER headers, one inside the other, and unwrapped. */
module Cssp {
  import opened Bits
  import opened Wrappers

  const INTEGER: byte := 2
  const OCTET_STRING: byte := 4
  const SEQUENCE: byte := 0x30
  const CONTEXT: byte := 0xa0

  // Writing.

  /** ber_out_header, for a tag of one byte. */
  function Header(tag: byte, length: nat): (s: seq<byte>)
    ensures |s| == if length >= 0x80 then 4 else 2
  {
    if length >= 0x80 then [tag, 0x82, length / 256 % 256, length % 256] else [tag, length]
  }

  /** ber_wrap_hdr_data */
  function Wrap(tag: byte, data: seq<byte>): (s: seq<byte>)
    ensures |s| == |Header(tag, |data|)| + |data|
  {
    Header(tag, |data|) + data
  }

  function Context(n: nat): byte
    requires n < 4
  {
    CONTEXT + n
  }

  function Version(): seq<byte> { Wrap(Context(0), Wrap(INTEGER, [2])) }

  function Token(token: seq<byte>): seq<byte>
  {
    if token == [] then []
    else Wrap(Context(1), Wrap(SEQUENCE, Wrap(SEQUENCE, Wrap(Context(0), Wrap(OCTET_STRING, token)))))
  }

  function Field(n: nat, data: seq<byte>): seq<byte>
    requires n < 4
  {
    if data == [] then [] else Wrap(Context(n), Wrap(OCTET_STRING, data))
  }

  function Body(token: seq<byte>, auth: seq<byte>, pubkey: seq<byte>): seq<byte>
  {
    Version() + (Token(token) + (Field(2, auth) + Field(3, pubkey)))
  }

  /** What cssp_send_tsrequest sends. */
  function Message(token: seq<byte>, auth: seq<byte>, pubkey: seq<byte>): seq<byte>
  {
    Wrap(SEQUENCE, Body(token, auth, pubkey))
  }

  // Reading.

  datatype Head = Head(tag: byte, length: nat, next: nat) | BadLength | PastEnd

  /** ber_in_header */
  function InHeader(s: seq<byte>, p: nat): (h: Head)
  {
    if p + 2 > |s| then PastEnd
    else if s[p + 1] < 0x80 then Head(s[p], s[p + 1], p + 2)
    else if s[p + 1] == 0x81 then (if p + 3 > |s| then PastEnd else Head(s[p], s[p + 2], p + 3))
    else if s[p + 1] == 0x82 then
      (if p + 4 > |s| then PastEnd else Head(s[p], 256 * (s[p + 2] as int) + s[p + 3], p + 4))
    else BadLength
  }

  /** What comes of a step: a value, a refusal, or bytes touched outside the buffers. */
  datatype Scan<T> = Here(value: T) | Rejected | Overrun
  {
    predicate IsFailure() { !Here? }

    function PropagateFailure<U>(): Scan<U>
      requires IsFailure()
    {
      if Rejected? then Scan<U>.Rejected else Scan<U>.Overrun
    }

    function Extract(): T
      requires Here?
    {
      value
    }
  }

  /** Where a value stands and how long it says it is. */
  datatype Span = Span(at: nat, length: nat)

  datatype Fields = Fields(token: Option<seq<byte>>, key: Option<seq<byte>>)

  /** The header at p, if it has this tag. */
  function Enter(s: seq<byte>, p: nat, tag: byte): Scan<Span>
  {
    match InHeader(s, p)
    case Head(t, length, next) => if t == tag then Here(Span(next, length)) else Rejected
    case BadLength => Rejected
    case PastEnd => Overrun
  }

  /** A value in its wrapping is found again. */
  lemma Unwrap(s: seq<byte>, p: nat, tag: byte, data: seq<byte>)
    requires |data| < 65536 && Stands(s, p, Wrap(tag, data))
    ensures var next := p + |Header(tag, |data|)|;
            InHeader(s, p) == Head(tag, |data|, next) && Stands(s, next, data) && next + |data| == p + |Wrap(tag, data)|
  {
    var h := Header(tag, |data|);
    StandsApart(s, p, h, data);
    StandsFirst(s, p, h, 0);
    StandsFirst(s, p, h, 1);
    if |data| >= 0x80 {
      StandsFirst(s, p, h, 2);
      StandsFirst(s, p, h, 3);
    }
  }

  /** The token under its four wrappings. */
  function FindToken(s: seq<byte>, p: nat): Scan<Span>
  {
    var a :- Enter(s, p, Context(1));
    var b :- Enter(s, a.at, SEQUENCE);
    var c :- Enter(s, b.at, SEQUENCE);
    var d :- Enter(s, c.at, Context(0));
    Enter(s, d.at, OCTET_STRING)
  }

  function FindKey(s: seq<byte>, p: nat): Scan<Span>
  {
    var a :- Enter(s, p, Context(3));
    Enter(s, a.at, OCTET_STRING)
  }

  /** The bytes of a value, if they are all there. */
  function Cut(s: seq<byte>, v: Span): Scan<seq<byte>>
  {
    if v.at + v.length <= |s| then Here(s[v.at..v.at + v.length]) else Overrun
  }

  /** The token copied out to a buffer of `room` bytes, which is not looked at. */
  function CopyToken(s: seq<byte>, v: Span, room: nat): Scan<seq<byte>>
  {
    if v.length <= room then Cut(s, v) else Overrun
  }

  function KeyIn(s: seq<byte>, p: nat): Scan<seq<byte>>
  {
    var v :- FindKey(s, p);
    Cut(s, v)
  }

  /** The place behind the version. */
  function Behind(s: seq<byte>): Scan<nat>
  {
    var whole :- Enter(s, 0, SEQUENCE);
    var version :- Enter(s, whole.at, Context(0));
    Here(version.at + version.length)
  }

  function ReadKey(s: seq<byte>, p: nat, token: Option<seq<byte>>, wantKey: bool): Scan<Fields>
  {
    if !wantKey then Here(Fields(token, None))
    else
      var key :- KeyIn(s, p);
      Here(Fields(token, Some(key)))
  }

  /** What is read of a message, the token into a buffer of so many bytes if one is wanted. Copying the
      token out does not move the place of reading on, so a key asked for as well is looked for where
      the token begins. */
  function Read(s: seq<byte>, room: Option<nat>, wantKey: bool): Scan<Fields>
  {
    var p :- Behind(s);
    if room.None? then ReadKey(s, p, None, wantKey)
    else
      var v :- FindToken(s, p);
      var token :- CopyToken(s, v, room.value);
      ReadKey(s, v.at, Some(token), wantKey)
  }

  /** The length that the first four bytes announce for the rest. */
  function Peek(s: seq<byte>): Option<int>
    requires |s| >= 4
  {
    if s[0] != SEQUENCE then None
    else if s[1] < 0x80 then Some((s[1] as int) - 2)
    else if s[1] == 0x81 then Some((s[2] as int) - 1)
    else if s[1] == 0x82 then Some(256 * (s[2] as int) + s[3])
    else None
  }

  /** With what has been read already it is the length of the whole message. */
  lemma PeekIsLength(token: seq<byte>, auth: seq<byte>, pubkey: seq<byte>)
    requires |Body(token, auth, pubkey)| < 65536
    ensures var m := Message(token, auth, pubkey);
            |m| >= 4 && Peek(m).Some? && Peek(m).value + 4 == |m|
  {
    BodySize(token, auth, pubkey);
    hide Body;
    var b := Body(token, auth, pubkey);
    var h := Header(SEQUENCE, |b|);
    assert (h + b)[0] == h[0] && (h + b)[1] == h[1];
    if |b| >= 0x80 {
      assert (h + b)[2] == h[2] && (h + b)[3] == h[3];
    }
  }

  /** The headers that are read: a length below 0x80 in one byte, any other one behind 0x81 in one or
      behind 0x82 in two, the high one first; and no other. */
  lemma HeadersRead(s: seq<byte>, p: nat)
    requires p + 4 <= |s|
    ensures InHeader(s, p) ==
            var first, high: int := s[p + 1], s[p + 2];
            if first < 0x80 then Head(s[p], first, p + 2)
            else if first == 0x81 then Head(s[p], high, p + 3)
            else if first == 0x82 then Head(s[p], 0x100 * high + s[p + 3], p + 4)
            else BadLength
    ensures InHeader(s[..p + 1], p) == PastEnd
    ensures s[p + 1] == 0x81 ==> InHeader(s[..p + 2], p) == PastEnd && InHeader(s[..p + 3], p) == InHeader(s, p)
    ensures s[p + 1] == 0x82 ==> InHeader(s[..p + 3], p) == PastEnd
  {
  }

  /** For any bytes, what is peeked is what the header says, less the four bytes that have been read. */
  lemma PeekAgrees(s: seq<byte>)
    requires |s| >= 4
    ensures var h := InHeader(s, 0);
            Peek(s) == if h.Head? && h.tag == 0x30 then Some(h.next + h.length - 4) else None
  {
  }

  /** The messages themselves, where they are short: a sequence of the version, 2, and the token in its
      wrappings. */
  lemma ShortTokenMessage(data: seq<byte>)
    requires 0 < |data| < 100
    ensures var n := |data|;
            Message(data, [], []) ==
            [0x30, n + 15, 0xa0, 3, 2, 1, 2] + [0xa1, n + 8, 0x30, n + 6, 0x30, n + 4, 0xa0, n + 2, 4, n] + data
  {
    var n := |data|;
    ShortToken(data);
    EmptyFields();
    var t: seq<byte> := [0xa1, n + 8, 0x30, n + 6, 0x30, n + 4, 0xa0, n + 2, 4, n];
    hide Token, Field, Message;
    var rest := Token(data) + Field(2, []) + Field(3, []);
    assert rest == t + data && rest[..|rest| - n] == t;
    Enclosed(data, [], [], data);
  }

  /** Or of the version and an authentication, or of the version and a key. */
  lemma ShortFieldMessage(auth: seq<byte>, pubkey: seq<byte>)
    requires (auth == [] || pubkey == []) && 0 < |auth + pubkey| < 100
    ensures var n, tag := |auth + pubkey|, if auth != [] then 0xa2 else 0xa3;
            Message([], auth, pubkey) == [0x30, n + 9, 0xa0, 3, 2, 1, 2] + [tag, n + 2, 4, n] + (auth + pubkey)
  {
    var data, k := auth + pubkey, if auth != [] then 2 else 3;
    assert data == auth || data == pubkey;
    ShortField(k, data);
    EmptyFields();
    var t: seq<byte> := [0xa0 + k, |data| + 2, 4, |data|];
    hide Token, Field, Message;
    var rest := Token([]) + Field(2, auth) + Field(3, pubkey);
    assert rest == t + data && rest[..|rest| - |data|] == t;
    Enclosed([], auth, pubkey, data);
  }

  lemma EmptyFields()
    ensures Token([]) == Field(2, []) == Field(3, []) == []
  {
  }

  lemma Enclosed(token: seq<byte>, auth: seq<byte>, pubkey: seq<byte>, data: seq<byte>)
    requires var rest := Token(token) + Field(2, auth) + Field(3, pubkey); |data| <= |rest| < 120
    requires var rest := Token(token) + Field(2, auth) + Field(3, pubkey); rest[|rest| - |data|..] == data
    ensures var rest := Token(token) + Field(2, auth) + Field(3, pubkey);
            Message(token, auth, pubkey) == [0x30, |rest| + 5, 0xa0, 3, 2, 1, 2] + rest[..|rest| - |data|] + data
  {
    VersionBytes();
    hide Token, Field, Version;
    var t, a, k := Token(token), Field(2, auth), Field(3, pubkey);
    var rest, v: seq<byte> := t + a + k, Version();
    var body := Body(token, auth, pubkey);
    assert body == v + rest && |body| == |rest| + 5;
    assert rest == rest[..|rest| - |data|] + data;
    assert [0x30, |rest| + 5] + body == [0x30, |rest| + 5, 0xa0, 3, 2, 1, 2] + rest[..|rest| - |data|] + data;
  }

  lemma ShortToken(data: seq<byte>)
    requires 0 < |data| < 100
    ensures var n := |data|;
            Token(data) == [0xa1, n + 8, 0x30, n + 6, 0x30, n + 4, 0xa0, n + 2, 4, n] + data
  {
    var n := |data|;
    var a := Wrap(OCTET_STRING, data);
    assert a == [4, n] + data;
    var b := Wrap(Context(0), a);
    assert b == [0xa0, n + 2, 4, n] + data;
    var c := Wrap(SEQUENCE, b);
    assert c == [0x30, n + 4, 0xa0, n + 2, 4, n] + data;
    var d := Wrap(SEQUENCE, c);
    assert d == [0x30, n + 6, 0x30, n + 4, 0xa0, n + 2, 4, n] + data;
    assert Wrap(Context(1), d) == [0xa1, n + 8, 0x30, n + 6, 0x30, n + 4, 0xa0, n + 2, 4, n] + data;
  }

  lemma ShortField(k: nat, data: seq<byte>)
    requires 0 < |data| < 100 && 2 <= k < 4
    ensures Field(k, data) == [0xa0 + k, |data| + 2, 4, |data|] + data
  {
    assert Wrap(OCTET_STRING, data) == [4, |data|] + data;
  }

  /** And where they are long: the length of a wrapped value in two bytes behind 0x82. */
  lemma LongHeader(tag: byte, data: seq<byte>)
    requires 0x80 <= |data| < 0x1_0000
    ensures var s := Wrap(tag, data);
            && |s| == 4 + |data| && s[0] == tag && s[1] == 0x82 && s[4..] == data
            && 0x100 * (s[2] as int) + s[3] == |data|
  {
    var h := Header(tag, |data|);
    assert (h + data)[2] == h[2] && (h + data)[3] == h[3];
  }

  lemma BodySize(token: seq<byte>, auth: seq<byte>, pubkey: seq<byte>)
    ensures |Body(token, auth, pubkey)| >= 5
  {
    VersionBytes();
    hide Token, Field, Version;
  }

  lemma VersionBytes()
    ensures Version() == [0xa0, 3, 2, 1, 2]
  {
  }

  lemma EnterWrapped(s: seq<byte>, p: nat, tag: byte, data: seq<byte>)
    requires |data| < 65536 && Stands(s, p, Wrap(tag, data))
    ensures var next := p + |Header(tag, |data|)|;
            && Enter(s, p, tag) == Here(Span(next, |data|))
            && Stands(s, next, data) && next + |data| == p + |Wrap(tag, data)|
  {
    Unwrap(s, p, tag, data);
  }

  /** The start of every message: where the version ends and the rest stands. */
  lemma Begun(token: seq<byte>, auth: seq<byte>, pubkey: seq<byte>)
    requires |Body(token, auth, pubkey)| < 65536
    ensures var m := Message(token, auth, pubkey);
            var rest := Token(token) + (Field(2, auth) + Field(3, pubkey));
            Behind(m).Here? && var p := Behind(m).value; Stands(m, p, rest) && |m| == p + |rest|
  {
    var m := Message(token, auth, pubkey);
    var rest := Token(token) + (Field(2, auth) + Field(3, pubkey));
    EnterWrapped(m, 0, SEQUENCE, Body(token, auth, pubkey));
    var p := Enter(m, 0, SEQUENCE).value.at;
    StandsApart(m, p, Version(), rest);
    EnterWrapped(m, p, Context(0), Wrap(INTEGER, [2]));
  }

  lemma TokenFound(s: seq<byte>, p: nat, token: seq<byte>)
    requires token != [] && Stands(s, p, Token(token)) && |Token(token)| < 65536
    ensures FindToken(s, p).Here?
    ensures var v := FindToken(s, p).value;
            v.length == |token| && Stands(s, v.at, token) && v.at + |token| == p + |Token(token)|
  {
    var a := Wrap(OCTET_STRING, token);
    var b := Wrap(Context(0), a);
    var c := Wrap(SEQUENCE, b);
    var d := Wrap(SEQUENCE, c);
    hide Wrap, Enter, Stands;
    EnterWrapped(s, p, Context(1), d);
    var p1 := Enter(s, p, Context(1)).value.at;
    EnterWrapped(s, p1, SEQUENCE, c);
    var p2 := Enter(s, p1, SEQUENCE).value.at;
    EnterWrapped(s, p2, SEQUENCE, b);
    var p3 := Enter(s, p2, SEQUENCE).value.at;
    EnterWrapped(s, p3, Context(0), a);
    EnterWrapped(s, Enter(s, p3, Context(0)).value.at, OCTET_STRING, token);
  }

  lemma KeyFound(s: seq<byte>, p: nat, key: seq<byte>)
    requires key != [] && Stands(s, p, Field(3, key)) && |Field(3, key)| < 65536
    ensures KeyIn(s, p) == Here(key)
  {
    EnterWrapped(s, p, Context(3), Wrap(OCTET_STRING, key));
    EnterWrapped(s, Enter(s, p, Context(3)).value.at, OCTET_STRING, key);
  }

  /** What begins with another tag is refused. */
  lemma OtherTag(s: seq<byte>, p: nat, n: nat, data: seq<byte>, rest: seq<byte>, m: nat)
    requires n < 4 && m < 4 && n != m && |data| < 65536 && Stands(s, p, Wrap(Context(n), data) + rest)
    ensures Enter(s, p, Context(m)) == Rejected
  {
    StandsApart(s, p, Wrap(Context(n), data), rest);
    EnterWrapped(s, p, Context(n), data);
  }

  lemma LessThanBody(token: seq<byte>, auth: seq<byte>, pubkey: seq<byte>)
    ensures |Token(token)| <= |Body(token, auth, pubkey)|
    ensures |Field(2, auth)| <= |Body(token, auth, pubkey)| && |Field(3, pubkey)| <= |Body(token, auth, pubkey)|
  {
    hide Token, Field, Version;
  }

  /** Where the fields begin, nothing is refused as a token and everything is seen for what it is. */
  lemma AtFields(m: seq<byte>, p: nat, auth: seq<byte>, pubkey: seq<byte>)
    requires Stands(m, p, Field(2, auth) + Field(3, pubkey)) && |m| == p + |Field(2, auth) + Field(3, pubkey)|
    requires |Field(2, auth)| < 65536 && |Field(3, pubkey)| < 65536
    ensures Enter(m, p, Context(1)) == if auth == [] && pubkey == [] then Overrun else Rejected
    ensures KeyIn(m, p) == if auth != [] then Rejected else if pubkey == [] then Overrun else Here(pubkey)
  {
    if auth != [] {
      OtherTag(m, p, 2, Wrap(OCTET_STRING, auth), Field(3, pubkey), 1);
      OtherTag(m, p, 2, Wrap(OCTET_STRING, auth), Field(3, pubkey), 3);
    } else if pubkey != [] {
      assert Field(2, auth) + Field(3, pubkey) == Field(3, pubkey) + [];
      OtherTag(m, p, 3, Wrap(OCTET_STRING, pubkey), [], 1);
      assert Field(3, pubkey) + [] == Field(3, pubkey);
      KeyFound(m, p, pubkey);
    }
  }

  /** The message is written inside its buffers unless it carries both an authentication and a key:
      only then the key is written behind a length that the authentication was not added to. */
  function Sent(token: seq<byte>, auth: seq<byte>, pubkey: seq<byte>): Scan<seq<byte>>
  {
    if auth != [] && pubkey != [] then Overrun else Here(Message(token, auth, pubkey))
  }

  /** A request that is sent and then read into a buffer of so many bytes. */
  function Carried(token: seq<byte>, auth: seq<byte>, pubkey: seq<byte>, room: Option<nat>, wantKey: bool): Scan<Fields>
  {
    var m :- Sent(token, auth, pubkey);
    Read(m, room, wantKey)
  }

  /** Where a message without a token has its fields. */
  lemma FieldsStart(auth: seq<byte>, pubkey: seq<byte>)
    requires |Body([], auth, pubkey)| < 65536
    ensures var m := Message([], auth, pubkey);
            && Behind(m).Here?
            && FindToken(m, Behind(m).value) == if auth == [] && pubkey == [] then Overrun else Rejected
  {
    hide *;
    Begun([], auth, pubkey);
    LessThanBody([], auth, pubkey);
    EmptyFields();
    var m, fields := Message([], auth, pubkey), Field(2, auth) + Field(3, pubkey);
    assert [] + fields == fields;
    AtFields(m, Behind(m).value, auth, pubkey);
    FindNothing(m, Behind(m).value);
  }

  lemma FindNothing(s: seq<byte>, p: nat)
    requires !Enter(s, p, Context(1)).Here?
    ensures FindToken(s, p) == Enter(s, p, Context(1))
  {
  }

  /** What reading a message for its token gives. */
  lemma TokenRead(token: seq<byte>, auth: seq<byte>, pubkey: seq<byte>, room: nat)
    requires |Body(token, auth, pubkey)| < 65536
    ensures Read(Message(token, auth, pubkey), Some(room), false) ==
            if token == [] then (if auth == [] && pubkey == [] then Overrun else Rejected)
            else if |token| <= room then Here(Fields(Some(token), None))
            else Overrun
  {
    hide Body, Message, Field, Behind, FindToken, Enter;
    if token == [] {
      FieldsStart(auth, pubkey);
    } else {
      var at := TokenStart(token, auth, pubkey);
    }
  }

  /** A request comes back as its token exactly when it has one, there is room for it, and it does not
      carry both an authentication and a key; and it stays inside the buffers exactly when there is
      room, not both of these, and not nothing at all. */
  lemma TokenRoundTrip(token: seq<byte>, auth: seq<byte>, pubkey: seq<byte>, room: nat)
    requires |Body(token, auth, pubkey)| < 65536
    ensures var r := Carried(token, auth, pubkey, Some(room), false);
            && (r == Here(Fields(Some(token), None)) <==> 0 < |token| <= room && (auth == [] || pubkey == []))
            && (r != Overrun
                <==> |token| <= room && (auth == [] || pubkey == []) && (token != [] || auth != [] || pubkey != []))
  {
    hide Read, Message;
    TokenRead(token, auth, pubkey, room);
  }

  /** A request comes back as its key exactly when it carries a key and nothing before it. */
  lemma KeyRoundTrip(token: seq<byte>, auth: seq<byte>, pubkey: seq<byte>)
    requires |Body(token, auth, pubkey)| < 65536
    ensures Carried(token, auth, pubkey, None, true) == Here(Fields(None, Some(pubkey)))
            <==> token == [] && auth == [] && pubkey != []
    ensures Read(Message(token, auth, pubkey), None, true) ==
            if token != [] || auth != [] then Rejected
            else if pubkey == [] then Overrun
            else Here(Fields(None, Some(pubkey)))
  {
    var m := Message(token, auth, pubkey);
    var fields := Field(2, auth) + Field(3, pubkey);
    hide Body, Message, Version;
    Begun(token, auth, pubkey);
    LessThanBody(token, auth, pubkey);
    var p := Behind(m).value;
    if token != [] {
      OtherTag(m, p, 1, Wrap(SEQUENCE, Wrap(SEQUENCE, Wrap(Context(0), Wrap(OCTET_STRING, token)))), fields, 3);
    } else {
      assert [] + fields == fields;
      AtFields(m, p, auth, pubkey);
    }
  }

  lemma EnterShift(s: seq<byte>, p: nat, q: nat, tag: byte)
    requires p <= |s|
    ensures Enter(s, p + q, tag) == match Enter(s[p..], q, tag)
                                    case Here(v) => Here(Span(p + v.at, v.length))
                                    case Rejected => Rejected
                                    case Overrun => Overrun
  {
  }

  lemma CutShift(s: seq<byte>, p: nat, v: Span)
    requires p <= |s|
    ensures Cut(s, Span(p + v.at, v.length)) == Cut(s[p..], v)
  {
    if v.at + v.length <= |s[p..]| {
      assert s[p..][v.at..v.at + v.length] == s[p + v.at..p + v.at + v.length];
    }
  }

  /** Where a key is looked for does not depend on what stands before. */
  lemma KeyShift(s: seq<byte>, p: nat)
    requires p <= |s|
    ensures KeyIn(s, p) == KeyIn(s[p..], 0)
  {
    hide Enter;
    EnterShift(s, p, 0, Context(3));
    var a := Enter(s[p..], 0, Context(3));
    if a.Here? {
      EnterShift(s, p, a.value.at, OCTET_STRING);
      var v := Enter(s[p..], a.value.at, OCTET_STRING);
      if v.Here? {
        CutShift(s, p, v.value);
      }
    }
  }

  /** The token's place in a message, and what stands from there on. */
  lemma TokenStart(token: seq<byte>, auth: seq<byte>, pubkey: seq<byte>) returns (at: nat)
    requires |Body(token, auth, pubkey)| < 65536 && token != []
    ensures var m := Message(token, auth, pubkey);
            && Behind(m).Here? && FindToken(m, Behind(m).value) == Here(Span(at, |token|))
            && at + |token| <= |m| && m[at..at + |token|] == token
            && m[at..] == token + (Field(2, auth) + Field(3, pubkey))
  {
    var m := Message(token, auth, pubkey);
    var fields := Field(2, auth) + Field(3, pubkey);
    hide *;
    Begun(token, auth, pubkey);
    LessThanBody(token, auth, pubkey);
    var p := Behind(m).value;
    at := TokenTail(m, p, token, fields);
  }

  lemma TokenTail(m: seq<byte>, p: nat, token: seq<byte>, fields: seq<byte>) returns (at: nat)
    requires token != [] && Stands(m, p, Token(token) + fields) && |m| == p + |Token(token) + fields|
    requires |Token(token)| < 65536
    ensures FindToken(m, p) == Here(Span(at, |token|)) && at + |token| <= |m|
    ensures m[at..at + |token|] == token && m[at..] == token + fields
  {
    hide *;
    StandsApart(m, p, Token(token), fields);
    TokenFound(m, p, token);
    at := FindToken(m, p).value.at;
    Tail(m, at, token, fields);
  }

  /** A token and a key asked for at once: the key is what stands as a key at the beginning of the token
      and of the fields behind it, whatever key the request carries. */
  lemma BothRead(token: seq<byte>, auth: seq<byte>, pubkey: seq<byte>, room: nat)
    requires |Body(token, auth, pubkey)| < 65536 && 0 < |token| <= room
    ensures Read(Message(token, auth, pubkey), Some(room), true) ==
            match KeyIn(token + (Field(2, auth) + Field(3, pubkey)), 0)
            case Here(key) => Here(Fields(Some(token), Some(key)))
            case Rejected => Rejected
            case Overrun => Overrun
  {
    hide Body, Message, Field, Behind, FindToken, KeyIn;
    var at := TokenStart(token, auth, pubkey);
    KeyShift(Message(token, auth, pubkey), at);
  }

  lemma Tail(m: seq<byte>, p: nat, a: seq<byte>, b: seq<byte>)
    requires Stands(m, p, a) && Stands(m, p + |a|, b) && |m| == p + |a| + |b|
    ensures m[p..] == a + b && m[p..p + |a|] == a
  {
  }

  /** So nothing is accepted unless the token begins like a key. */
  lemma BothRefused(token: seq<byte>, auth: seq<byte>, pubkey: seq<byte>, room: nat)
    requires |Body(token, auth, pubkey)| < 65536 && 0 < |token| <= room && token[0] != Context(3)
    ensures !Read(Message(token, auth, pubkey), Some(room), true).Here?
    ensures |token| >= 4 ==> Read(Message(token, auth, pubkey), Some(room), true) == Rejected
  {
    hide Read, Message, Body, Field;
    BothRead(token, auth, pubkey, room);
    assert (token + (Field(2, auth) + Field(3, pubkey)))[0] == token[0];
  }

  // Messages that break off.

  lemma EnterPrefix(s: seq<byte>, n: nat, p: nat, tag: byte)
    requires n <= |s| && Enter(s, p, tag).Here?
    ensures Enter(s[..n], p, tag) == Overrun || Enter(s[..n], p, tag) == Enter(s, p, tag)
  {
  }

  lemma BehindPrefix(s: seq<byte>, n: nat)
    requires n <= |s| && Behind(s).Here?
    ensures Behind(s[..n]) == Overrun || Behind(s[..n]) == Behind(s)
  {
    var p := Enter(s, 0, SEQUENCE).value.at;
    EnterPrefix(s, n, 0, SEQUENCE);
    EnterPrefix(s, n, p, Context(0));
    hide Enter;
  }

  lemma TokenPrefix(s: seq<byte>, n: nat, p: nat)
    requires n <= |s| && FindToken(s, p).Here?
    ensures FindToken(s[..n], p) == Overrun || FindToken(s[..n], p) == FindToken(s, p)
  {
    hide Enter;
    var a := Enter(s, p, Context(1)).value.at;
    EnterPrefix(s, n, p, Context(1));
    var b := Enter(s, a, SEQUENCE).value.at;
    EnterPrefix(s, n, a, SEQUENCE);
    var c := Enter(s, b, SEQUENCE).value.at;
    EnterPrefix(s, n, b, SEQUENCE);
    var d := Enter(s, c, Context(0)).value.at;
    EnterPrefix(s, n, c, Context(0));
    EnterPrefix(s, n, d, OCTET_STRING);
  }

  /** A message with a token that breaks off anywhere is read beyond what is there. */
  lemma BrokenOff(token: seq<byte>, n: nat, room: nat)
    requires |Body(token, [], [])| < 65536 && token != [] && n < |Message(token, [], [])|
    ensures Read(Message(token, [], [])[..n], Some(room), false) == Overrun
  {
    var at := TokenStart(token, [], []);
    EmptyFields();
    var m := Message(token, [], []);
    hide Message, Body, Behind, FindToken, Enter, Token, Field;
    assert |m| == at + |token|;
    BehindPrefix(m, n);
    TokenPrefix(m, n, Behind(m).value);
  }

  // The two routines, on streams.

  /** A stream that is written: the bytes before the place of writing, the end as it was last marked,
      and how much is allocated. */
  class Stream {
    var data: seq<byte>
    var end: nat
    var size: nat

    constructor ()
      ensures data == [] && end == 0 && size == 0
    {
      data, end, size := [], 0, 0;
    }

    /** s_realloc: it only grows. */
    method Realloc(n: nat)
      modifies this`size
      ensures size == if old(size) >= n then old(size) else n
    {
      if size >= n { return; }
      size := n;
    }

    /** out_uint8p, which does not look at the size. */
    method Out(v: seq<byte>) returns (inside: bool)
      modifies this`data
      ensures inside <==> |old(data)| + |v| <= size
      ensures inside ==> data == old(data) + v
    {
      inside := |data| + |v| <= size;
      if inside { data := data + v; }
    }

    method MarkEnd()
      modifies this`end
      ensures end == |data|
    {
      end := |data|;
    }

    /** A field is added: room for it behind the marked end, and then the bytes. */
    method Append(v: seq<byte>) returns (inside: bool)
      modifies this
      ensures size == if old(size) >= end + |v| then old(size) else end + |v|
      ensures inside <==> |old(data)| + |v| <= size
      ensures inside ==> data == old(data) + v
      ensures end == old(end)
    {
      Realloc(end + |v|);
      inside := Out(v);
    }
  }

  lemma BodyIs(token: seq<byte>, auth: seq<byte>, pubkey: seq<byte>)
    ensures Body(token, auth, pubkey) == Version() + Token(token) + Field(2, auth) + Field(3, pubkey)
    ensures auth != [] <==> Field(2, auth) != []
    ensures pubkey != [] <==> Field(3, pubkey) != []
    ensures Version() == Wrap(Context(0), Wrap(INTEGER, [2]))
    ensures var inner := Wrap(Context(0), Wrap(OCTET_STRING, token));
            Token(token) == if token == [] then [] else Wrap(Context(1), Wrap(SEQUENCE, Wrap(SEQUENCE, inner)))
    ensures Field(2, auth) == if auth == [] then [] else Wrap(Context(2), Wrap(OCTET_STRING, auth))
    ensures Field(3, pubkey) == if pubkey == [] then [] else Wrap(Context(3), Wrap(OCTET_STRING, pubkey))
  {
    hide Wrap, Header;
    var a, b, c, d := Version(), Token(token), Field(2, auth), Field(3, pubkey);
    assert a + (b + (c + d)) == a + b + c + d;
  }

  /** cssp_send_tsrequest: after the authentication the end is not marked. */
  method SendRequest(token: seq<byte>, auth: seq<byte>, pubkey: seq<byte>) returns (r: Scan<seq<byte>>)
    ensures r == Sent(token, auth, pubkey)
  {
    hide Wrap, Body;
    BodyIs(token, auth, pubkey);
    hide Field, Token, Version;
    var message := new Stream();
    var inside := message.Append(Wrap(Context(0), Wrap(INTEGER, [2])));
    message.MarkEnd();
    if |token| > 0 {
      var inner := Wrap(Context(0), Wrap(OCTET_STRING, token));
      inside := message.Append(Wrap(Context(1), Wrap(SEQUENCE, Wrap(SEQUENCE, inner))));
      message.MarkEnd();
    }
    assert message.data == Version() + Token(token) && message.end == message.size == |message.data|;
    if |auth| > 0 {
      inside := message.Append(Wrap(Context(2), Wrap(OCTET_STRING, auth)));
    }
    assert message.data == Version() + Token(token) + Field(2, auth);
    assert message.end + |Field(2, auth)| == |message.data| == message.size;
    if |pubkey| > 0 {
      inside := message.Append(Wrap(Context(3), Wrap(OCTET_STRING, pubkey)));
      if !inside { return Overrun; }
      message.MarkEnd();
    }
    message.MarkEnd();
    assert message.data == Version() + Token(token) + Field(2, auth) + Field(3, pubkey);
    assert message.data[..message.end] == message.data;
    r := Here(Wrap(SEQUENCE, message.data[..message.end]));
  }

  /** ber_in_header together with the test of its tag. */
  method Expect(s: seq<byte>, p: nat, tag: byte) returns (r: Scan<Span>)
    ensures r == Enter(s, p, tag)
  {
    var h := InHeader(s, p);
    if h.PastEnd? { return Overrun; }
    if h.BadLength? || h.tag != tag { return Rejected; }
    r := Here(Span(h.next, h.length));
  }

  /** cssp_read_tsrequest, the whole message having been received. */
  method ReadRequest(s: seq<byte>, room: Option<nat>, wantKey: bool) returns (r: Scan<Fields>)
    ensures r == Read(s, room, wantKey)
  {
    hide InHeader, Enter;
    var v: Span :- Expect(s, 0, SEQUENCE);
    v :- Expect(s, v.at, Context(0));
    var p := v.at + v.length;
    var token, key: Option<seq<byte>> := None, None;
    if room.Some? {
      v :- Expect(s, p, Context(1));
      v :- Expect(s, v.at, SEQUENCE);
      v :- Expect(s, v.at, SEQUENCE);
      v :- Expect(s, v.at, Context(0));
      v :- Expect(s, v.at, OCTET_STRING);
      if v.length > room.value || v.at + v.length > |s| { return Overrun; }
      p := v.at;
      token := Some(s[p..p + v.length]);
    }
    if wantKey {
      v :- Expect(s, p, Context(3));
      v :- Expect(s, v.at, OCTET_STRING);
      if v.at + v.length > |s| { return Overrun; }
      key := Some(s[v.at..v.at + v.length]);
    }
    r := Here(Fields(token, key));
  }
}
