/** What the decompressor is for: it inverts every compressor that writes the code, it accepts
    nothing else, and a session of packets rebuilds one history. */
module MppcProofs {
  import opened Bits
  import opened MppcCode
  import opened Mppc

  // Where a copy reads.

  function Window(big: bool): nat { if big then 65536 else 8192 }

  /** A place counted round a window of h. */
  function Round(d: int, h: nat): (p: nat)
    requires h > 0
    ensures p < h
    decreases if d < 0 then h - d else d
  {
    if d < 0 then Round(d + h, h) else if d < h then d else Round(d - h, h)
  }

  lemma {:induction false} RoundIs(d: int, h: nat) returns (m: int)
    requires h > 0
    ensures Round(d, h) == d + m * h
    decreases if d < 0 then h - d else d
  {
    if d < 0 {
      m := RoundIs(d + h, h);
      m := m + 1;
    } else if d < h {
      m := 0;
    } else {
      m := RoundIs(d - h, h);
      m := m - 1;
    }
  }

  lemma SourceIs(off: nat, back: nat, big: bool)
    ensures Source(off, back, big) == Round(off - back, Window(big))
  {
    var m := RoundIs(off - back, Window(big));
    Remainder(off - back, Round(off - back, Window(big)), m, Window(big));
  }

  lemma Remainder(d: int, p: nat, m: int, h: nat)
    requires (h == 65536 || h == 8192) && p < h && p == d + m * h
    ensures d % h == p
  {
    if h == 65536 {
      RemainderBig(d, p, m);
    } else {
      RemainderSmall(d, p, m);
    }
  }

  lemma RemainderBig(d: int, p: nat, m: int)
    requires p < 65536 && p == d + m * 65536
    ensures d % 65536 == p
  {
  }

  lemma RemainderSmall(d: int, p: nat, m: int)
    requires p < 8192 && p == d + m * 8192
    ensures d % 8192 == p
  {
  }

  /** A byte of a copy is what stands at the place it is read from by then: a byte of the copy itself if
      the copy has got there. */
  lemma {:induction false} CopyAt(h: seq<byte>, dst: nat, src: nat, len: nat, i: nat)
    requires dst + len <= |h| && src + len <= |h| && i < len
    ensures var r := CopyBytes(h, dst, src, len);
            r[dst + i] == if dst <= src + i < dst + i then r[src + i] else h[src + i]
    decreases len
  {
    if i > 0 {
      CopyAt(h[dst := h[src]], dst + 1, src + 1, len - 1, i - 1);
    }
  }

  /** For every match that is performed: the place its first byte is read from, in the window, and byte i
      of it from the i-th place after that. */
  lemma CopyStart(h: seq<byte>, off: nat, back: nat, len: nat, big: bool, i: nat) returns (p: nat, m: int)
    requires |h| == HISTORY && off <= HISTORY && Write(h, off, Copy(back, len), big).status.Done? && i < len
    ensures if big then p < 65536 && p == off - back + m * 65536 else p < 8192 && p == off - back + m * 8192
    ensures var r := Write(h, off, Copy(back, len), big);
            && r.off == off + len < HISTORY && p + len <= HISTORY
            && r.hist[off] == h[p]
            && r.hist[off + i] == (if off <= p + i < off + i then r.hist[p + i] else h[p + i])
            && r.hist[..off] == h[..off] && r.hist[off + len..] == h[off + len..]
  {
    SourceIs(off, back, big);
    p := Round(off - back, Window(big));
    m := RoundIs(off - back, Window(big));
    CopyAt(h, off, p, len, 0);
    CopyAt(h, off, p, len, i);
  }

  /** Which tokens are performed: a literal may fill the last place of the history, a match may not; and a
      match must not read beyond the history. */
  lemma WriteWhen(h: seq<byte>, off: nat, t: Token, big: bool)
    requires |h| == HISTORY && off <= HISTORY
    ensures Write(h, off, t, big).status ==
            match t
            case Lit(_) => if off < 65536 then Done else Corrupt
            case Copy(back, len) =>
              if off + len >= 65536 then Corrupt
              else if Round(off - back, Window(big)) + len > 65536 then Stray
              else Done
  {
    if t.Copy? {
      SourceIs(off, t.off, big);
    }
  }

  lemma WriteMoves(h: seq<byte>, off: nat, t: Token, big: bool)
    requires |h| == HISTORY && off <= HISTORY && Write(h, off, t, big).status.Done?
    ensures Write(h, off, t, big).off == off + Size(t)
  {
  }

  // LZ77 over a history that outlives a reset.

  /** What has been said since the history was begun, and what its places behind that hold from before. */
  datatype Text = Text(said: seq<byte>, kept: seq<byte>)
  {
    predicate Valid() { |said| + |kept| == 65536 }

    function Memory(): seq<byte> { said + kept }

    function Say(b: byte): Text
      requires kept != []
    {
      Text(said + [b], kept[1..])
    }
  }

  /** `len` bytes, each the one at the place it is read from by then. */
  function Copied(t: Text, at: nat, len: nat): (r: Text)
    requires t.Valid() && at + len <= 65536 && len <= |t.kept|
    ensures r.Valid() && |r.said| == |t.said| + len && t.said <= r.said && r.kept == t.kept[len..]
    decreases len
  {
    if len == 0 then t else Copied(t.Say(t.Memory()[at]), at + 1, len - 1)
  }

  /** The token fits the history after n bytes. */
  predicate Sound(t: Token, n: nat, big: bool)
  {
    && Codable(t, big)
    && match t
       case Lit(_) => n < 65536
       case Copy(back, len) => n + len < 65536 && Round(n - back, Window(big)) + len <= 65536
  }

  function Size(t: Token): nat { if t.Lit? then 1 else t.len }

  predicate AllSound(ts: seq<Token>, n: nat, big: bool)
  {
    ts == [] || (Sound(ts[0], n, big) && AllSound(ts[1..], n + Size(ts[0]), big))
  }

  function Grow(t: Text, token: Token, big: bool): (r: Text)
    requires t.Valid() && Sound(token, |t.said|, big)
    ensures r.Valid() && |r.said| == |t.said| + Size(token) && t.said <= r.said && r.kept == t.kept[Size(token)..]
  {
    match token
    case Lit(b) => t.Say(b)
    case Copy(back, len) => Copied(t, Round(|t.said| - back, Window(big)), len)
  }

  /** The text a list of tokens stands for, appended to what came before. */
  function Lz(t: Text, ts: seq<Token>, big: bool): (r: Text)
    requires t.Valid() && AllSound(ts, |t.said|, big)
    ensures r.Valid() && t.said <= r.said
    ensures r.kept == t.kept[|r.said| - |t.said|..]
    decreases ts
  {
    if ts == [] then t else Lz(Grow(t, ts[0], big), ts[1..], big)
  }

  /** LZ77 on an output that only grows. */
  function CopyBack(out: seq<byte>, back: nat, len: nat): (r: seq<byte>)
    requires 1 <= back <= |out|
    ensures |r| == |out| + len && out <= r
    decreases len
  {
    if len == 0 then out else CopyBack(out + [out[|out| - back]], back, len - 1)
  }

  lemma {:induction false} CopyIsLz(t: Text, back: nat, len: nat)
    requires t.Valid() && 1 <= back <= |t.said| && len <= |t.kept|
    ensures Copied(t, |t.said| - back, len).said == CopyBack(t.said, back, len)
    decreases len
  {
    if len > 0 {
      var b := t.said[|t.said| - back];
      assert t.Memory()[|t.said| - back] == b;
      CopyIsLz(t.Say(b), back, len - 1);
    }
  }

  /** A match that reaches back into what was said since the history was begun is LZ77. */
  lemma NearMatch(t: Text, back: nat, len: nat, big: bool)
    requires t.Valid() && Sound(Copy(back, len), |t.said|, big)
    requires 1 <= back <= |t.said| && |t.said| - back < if big then 65536 else 8192
    ensures Grow(t, Copy(back, len), big).said == CopyBack(t.said, back, len)
  {
    CopyIsLz(t, back, len);
  }

  /** One that reaches further, round the window, is a piece of what the history holds from before. */
  lemma FarMatch(t: Text, back: nat, len: nat, big: bool)
    requires t.Valid() && Sound(Copy(back, len), |t.said|, big)
    requires var h := if big then 65536 else 8192; |t.said| < back <= h
    ensures var at := (if big then 65536 else 8192) - back;
            at + len <= |t.kept| && Grow(t, Copy(back, len), big).said == t.said + t.kept[at..at + len]
  {
    var at := (if big then 65536 else 8192) - back;
    assert Round(|t.said| - back, Window(big)) == |t.said| + at;
    CopyAhead(t, at, len);
  }

  lemma CopyStep(t: Text, at: nat, len: nat)
    requires t.Valid() && at + len <= |t.kept| && len > 0
    ensures Copied(t, |t.said| + at, len) == Copied(t.Say(t.kept[at]), |t.said| + 1 + at, len - 1)
  {
    assert t.Memory()[|t.said| + at] == t.kept[at];
  }

  lemma {:induction false} CopyAhead(t: Text, at: nat, len: nat)
    requires t.Valid() && at + len <= |t.kept|
    ensures Copied(t, |t.said| + at, len).said == t.said + t.kept[at..at + len]
    decreases len
  {
    if len > 0 {
      CopyStep(t, at, len);
      CopyAhead(t.Say(t.kept[at]), at, len - 1);
      hide Copied;
      SayRest(t, at, len);
    } else {
      assert t.kept[at..at] == [];
    }
  }

  lemma SayRest(t: Text, at: nat, len: nat)
    requires at + len <= |t.kept| && len > 0
    ensures var u := t.Say(t.kept[at]); u.said + u.kept[at..at + len - 1] == t.said + t.kept[at..at + len]
  {
    var u := t.Say(t.kept[at]);
    assert u.kept[at..at + len - 1] == t.kept[at + 1..at + len];
  }

  lemma {:induction false} CopyInMemory(t: Text, at: nat, len: nat)
    requires t.Valid() && at + len <= 65536 && len <= |t.kept|
    ensures CopyBytes(t.Memory(), |t.said|, at, len) == Copied(t, at, len).Memory()
    decreases len
  {
    if len > 0 {
      var b := t.Memory()[at];
      assert t.Memory()[|t.said| := b] == t.Say(b).Memory();
      CopyInMemory(t.Say(b), at + 1, len - 1);
    }
  }

  /** Writing a sound token behind what was said appends its text and touches nothing else. */
  lemma WriteIsGrow(t: Text, token: Token, big: bool)
    requires t.Valid() && Sound(token, |t.said|, big)
    ensures var r := Grow(t, token, big); Write(t.Memory(), |t.said|, token, big) == Run(Done, r.Memory(), |r.said|)
  {
    hide Round, CopyBytes, Copied, Source;
    match token
    case Lit(b) => assert t.Memory()[|t.said| := b] == t.Say(b).Memory();
    case Copy(back, len) =>
      SourceIs(|t.said|, back, big);
      CopyInMemory(t, Round(|t.said| - back, Window(big)), len);
  }

  function WriteAll(h: seq<byte>, off: nat, ts: seq<Token>, big: bool): (r: Run)
    requires |h| == HISTORY && off <= HISTORY
    ensures |r.hist| == HISTORY && off <= r.off <= HISTORY
    decreases ts
  {
    if ts == [] then Run(Done, h, off)
    else
      var w := Write(h, off, ts[0], big);
      if !w.status.Done? then w else WriteAll(w.hist, w.off, ts[1..], big)
  }

  lemma {:induction false} WriteAllIsLz(t: Text, ts: seq<Token>, big: bool)
    requires t.Valid() && AllSound(ts, |t.said|, big)
    ensures var r := Lz(t, ts, big); WriteAll(t.Memory(), |t.said|, ts, big) == Run(Done, r.Memory(), |r.said|)
    decreases ts
  {
    hide Write, Grow;
    if ts != [] {
      WriteIsGrow(t, ts[0], big);
      WriteAllIsLz(Grow(t, ts[0], big), ts[1..], big);
    }
  }

  /** Tokens are performed to the end exactly when they are sound. */
  lemma {:induction false} WriteAllWhen(h: seq<byte>, off: nat, ts: seq<Token>, big: bool)
    requires |h| == HISTORY && off <= HISTORY && AllCodable(ts, big)
    ensures WriteAll(h, off, ts, big).status.Done? <==> AllSound(ts, off, big)
    decreases ts
  {
    hide Write, Round, Codable;
    if ts != [] {
      WriteWhen(h, off, ts[0], big);
      var w := Write(h, off, ts[0], big);
      if w.status.Done? {
        WriteMoves(h, off, ts[0], big);
        assert AllCodable(ts[1..], big);
        WriteAllWhen(w.hist, w.off, ts[1..], big);
      }
    }
  }

  // The bits of a packet and the tokens they spell.

  predicate AllCodable(ts: seq<Token>, big: bool) { forall t <- ts :: Codable(t, big) }

  /** Decoding what a compressor wrote performs its tokens, whatever they are. */
  lemma {:induction false} DecodeEncoded(h: seq<byte>, off: nat, ts: seq<Token>, pad: seq<bool>, big: bool)
    requires |h| == HISTORY && off <= HISTORY && AllCodable(ts, big) && Padding(pad)
    ensures Decode(h, off, EncodeAll(ts, big) + pad, big) == WriteAll(h, off, ts, big)
    decreases ts
  {
    if ts == [] {
      assert EncodeAll(ts, big) + pad == pad;
    } else {
      var first, rest := Encode(ts[0], big), EncodeAll(ts[1..], big) + pad;
      Assoc(first, EncodeAll(ts[1..], big), pad);
      EncodeRoundTrip(ts[0], big, rest);
      DropPrefix(first, rest);
      var w := Write(h, off, ts[0], big);
      if w.status.Done? {
        DecodeEncoded(w.hist, w.off, ts[1..], pad, big);
      }
    }
  }

  /** The bits consist of code words and at most seven zeros. */
  ghost predicate Spells(s: seq<bool>, ts: seq<Token>, big: bool)
  {
    && AllCodable(ts, big)
    && EncodeAll(ts, big) <= s
    && Padding(s[|EncodeAll(ts, big)|..])
  }

  lemma SpellsCons(s: seq<bool>, t: Token, ts: seq<Token>, big: bool)
    requires Codable(t, big) && Encode(t, big) <= s && Spells(s[|Encode(t, big)|..], ts, big)
    ensures Spells(s, [t] + ts, big)
  {
    var e, rest := Encode(t, big), EncodeAll(ts, big);
    assert ([t] + ts)[1..] == ts;
    assert s[|e|..][|rest|..] == s[|e + rest|..];
    assert s == e + s[|e|..];
  }

  /** A packet that decodes without complaint was written by a compressor. */
  lemma {:induction false} AcceptedIsEncoded(h: seq<byte>, off: nat, s: seq<bool>, big: bool) returns (ts: seq<Token>)
    requires |h| == HISTORY && off <= HISTORY && Decode(h, off, s, big).status.Done?
    ensures Spells(s, ts, big) && WriteAll(h, off, ts, big).status.Done?
    decreases |s|
  {
    match Next(s, big)
    case End =>
      ts := [];
      assert s[0..] == s;
    case Item(t, n) =>
      NextWritten(s, big);
      assert Encode(t, big) == s[..n];
      var w := Write(h, off, t, big);
      var us := AcceptedIsEncoded(w.hist, w.off, s[n..], big);
      SpellsCons(s, t, us, big);
      ts := [t] + us;
      assert ts[1..] == us;
  }

  /** mppc_expand succeeds exactly on the packets some compressor could have written for tokens
      that fit the history. */
  lemma AcceptsExactlyTheCode(h: seq<byte>, off: nat, s: seq<bool>, big: bool)
    requires |h| == HISTORY && off <= HISTORY
    ensures Decode(h, off, s, big).status.Done? <==> exists ts :: Spells(s, ts, big) && AllSound(ts, off, big)
  {
    if Decode(h, off, s, big).status.Done? {
      var ts := AcceptedIsEncoded(h, off, s, big);
      WriteAllWhen(h, off, ts, big);
    }
    if ts :| Spells(s, ts, big) && AllSound(ts, off, big) {
      var e := EncodeAll(ts, big);
      assert s == e + s[|e|..];
      DecodeEncoded(h, off, ts, s[|e|..], big);
      WriteAllWhen(h, off, ts, big);
    }
  }

  /** A bit string spells one list of tokens at most. */
  lemma {:induction false} SpellingIsUnique(s: seq<bool>, ts: seq<Token>, us: seq<Token>, big: bool)
    requires Spells(s, ts, big) && Spells(s, us, big)
    ensures ts == us
    decreases |ts| + |us|
  {
    if ts == [] || us == [] {
      if ts != us {
        var vs := ts + us;
        SpellingStarts(s, vs, big);
        assert false;
      }
    } else {
      SpellingStarts(s, ts, big);
      SpellingStarts(s, us, big);
      SpellingIsUnique(s[|Encode(ts[0], big)|..], ts[1..], us[1..], big);
    }
  }

  lemma SpellingStarts(s: seq<bool>, ts: seq<Token>, big: bool)
    requires Spells(s, ts, big) && ts != []
    ensures Next(s, big) == Item(ts[0], |Encode(ts[0], big)|)
    ensures Spells(s[|Encode(ts[0], big)|..], ts[1..], big)
  {
    var e, r := Encode(ts[0], big), EncodeAll(ts[1..], big);
    var pad := s[|e + r|..];
    assert s == e + (r + pad);
    EncodeRoundTrip(ts[0], big, r + pad);
    assert s[|e|..] == r + pad && (r + pad)[|r|..] == pad;
  }

  // Bytes.

  /** The zeros that complete the last octet. */
  function Pad(n: nat): (r: seq<bool>)
    ensures Padding(r) && (n + |r|) % 8 == 0
  {
    seq((8 - n % 8) % 8, _ => false)
  }

  /** The octets a compressor sends. */
  function Compress(ts: seq<Token>, big: bool): seq<byte>
    requires AllCodable(ts, big)
  {
    var s := EncodeAll(ts, big);
    Pack(s + Pad(|s|))
  }

  lemma CompressSpells(ts: seq<Token>, big: bool)
    requires AllCodable(ts, big)
    ensures Spells(Stream(Compress(ts, big)), ts, big)
  {
    var s := EncodeAll(ts, big);
    StreamOfPack(s + Pad(|s|));
    DropPrefix(s, Pad(|s|));
  }

  /** The text before a packet: a flush clears the history, a reset keeps what it holds. */
  function Start(t: Text, p: Packet): (r: Text)
    requires t.Valid()
    ensures r.Valid()
  {
    if p.ctype & 0x80 != 0 then Text([], seq(65536, _ => 0))
    else if p.ctype & 0x40 != 0 then Text([], t.Memory())
    else t
  }

  function TextOf(st: State): (t: Text)
    requires st.Valid()
    ensures t.Valid() && t.Memory() == st.hist && |t.said| == st.roff
  {
    Text(st.hist[..st.roff], st.hist[st.roff..])
  }

  lemma PreparedIs(st: State, p: Packet)
    requires st.Valid()
    ensures TextOf(Prepared(st, p)) == Start(TextOf(st), p)
  {
  }

  /** One packet: the client reads the text of the tokens the server compressed. */
  lemma ExpandInverts(st: State, p: Packet, ts: seq<Token>)
    requires st.Valid() && p.Compressed() && Spells(Stream(p.data), ts, p.Big())
    requires AllSound(ts, |Start(TextOf(st), p).said|, p.Big())
    ensures var t := Start(TextOf(st), p);
            var text := Lz(t, ts, p.Big());
            var r := Step(st, p);
            && r.status.Done? && r.off == |t.said| && r.len == |text.said| - |t.said|
            && r.st == State(text.Memory(), |text.said|)
  {
    var t, s := Start(TextOf(st), p), Stream(p.data);
    PreparedIs(st, p);
    var e := EncodeAll(ts, p.Big());
    assert s == e + s[|e|..];
    hide Prepared, Start;
    DecodeEncoded(t.Memory(), |t.said|, ts, s[|e|..], p.Big());
    WriteAllIsLz(t, ts, p.Big());
  }

  // Sessions.

  /** What the client reads after one call. */
  function Piece(r: Outcome, p: Packet): seq<byte>
    requires r.off + r.len <= if p.Compressed() then |r.st.hist| else |p.data|
  {
    if p.Compressed() then r.st.hist[r.off..r.off + r.len] else p.data[r.off..r.off + r.len]
  }

  function Final(st: State, ps: seq<Packet>): (r: State)
    requires st.Valid()
    ensures r.Valid()
    decreases ps
  {
    if ps == [] then st else Final(Step(st, ps[0]).st, ps[1..])
  }

  function Pieces(st: State, ps: seq<Packet>): seq<seq<byte>>
    requires st.Valid()
    decreases ps
  {
    if ps == [] then [] else [Piece(Step(st, ps[0]), ps[0])] + Pieces(Step(st, ps[0]).st, ps[1..])
  }

  function Flatten(pieces: seq<seq<byte>>): seq<byte>
  {
    if pieces == [] then [] else pieces[0] + Flatten(pieces[1..])
  }

  predicate Plain(p: Packet) { p.Compressed() && !p.Reset() && !p.Flush() }

  /** A packet that fails delivers nothing and leaves the text as it was. */
  lemma PieceIsAppended(st: State, p: Packet)
    requires st.Valid() && Plain(p)
    ensures var r := Step(st, p);
            && r.st.hist[..r.st.roff] == st.hist[..st.roff] + Piece(r, p)
            && (!r.status.Done? ==> Piece(r, p) == [])
  {
    var r := Step(st, p);
    var h := r.st.hist;
    assert h[..st.roff] == st.hist[..st.roff];
    TakeSplit(h, st.roff, r.len);
    Middle(h, st.roff, r.len);
  }

  lemma Middle<T>(s: seq<T>, j: nat, k: nat)
    requires j + k <= |s|
    ensures s[j..][..k] == s[j..j + k]
  {
  }

  /** Valid or not, the packets between two resets build one history: what they delivered, in order,
      after what was there. */
  lemma {:induction false} HistoryIsWhatWasDelivered(st: State, ps: seq<Packet>)
    requires st.Valid() && forall p <- ps :: Plain(p)
    ensures var r := Final(st, ps);
            r.hist[..r.roff] == st.hist[..st.roff] + Flatten(Pieces(st, ps))
    decreases ps
  {
    if ps != [] {
      var p := ps[0];
      var r := Step(st, p);
      HistoryIsWhatWasDelivered(r.st, ps[1..]);
      PieceIsAppended(st, p);
      assert Pieces(st, ps)[1..] == Pieces(r.st, ps[1..]);
      Assoc(st.hist[..st.roff], Piece(r, p), Flatten(Pieces(r.st, ps[1..])));
    }
  }

  /** A packet and the tokens the server meant by it. */
  datatype Plan = Plan(packet: Packet, tokens: seq<Token>)

  /** The server compresses against the same text and history the client has. */
  ghost predicate Faithful(plans: seq<Plan>, t: Text)
    requires t.Valid()
    decreases plans
  {
    plans == [] ||
    var p, ts := plans[0].packet, plans[0].tokens;
    if p.Compressed() then
      && Spells(Stream(p.data), ts, p.Big())
      && AllSound(ts, |Start(t, p).said|, p.Big())
      && Faithful(plans[1..], Lz(Start(t, p), ts, p.Big()))
    else Faithful(plans[1..], t)
  }

  /** What the server wanted to say. */
  ghost function Texts(plans: seq<Plan>, t: Text): seq<seq<byte>>
    requires t.Valid() && Faithful(plans, t)
    decreases plans
  {
    if plans == [] then []
    else
      var p, ts := plans[0].packet, plans[0].tokens;
      if p.Compressed() then
        var text := Lz(Start(t, p), ts, p.Big());
        [text.said[|Start(t, p).said|..]] + Texts(plans[1..], text)
      else [p.data] + Texts(plans[1..], t)
  }

  function Packets(plans: seq<Plan>): (ps: seq<Packet>)
    ensures |ps| == |plans|
  {
    seq(|plans|, i requires 0 <= i < |plans| => plans[i].packet)
  }

  lemma TextIs(t: Text)
    requires t.Valid()
    ensures TextOf(State(t.Memory(), |t.said|)) == t
  {
  }

  lemma Slice(t: Text, n: nat)
    requires n <= |t.said|
    ensures t.Memory()[n..|t.said|] == t.said[n..]
  {
  }

  /** A whole session, resets, flushes and uncompressed packets included: the client reads exactly
      what the server said, matches that reach round into text from before a reset included. */
  lemma {:induction false} SessionRoundTrip(st: State, plans: seq<Plan>)
    requires st.Valid() && Faithful(plans, TextOf(st))
    ensures Pieces(st, Packets(plans)) == Texts(plans, TextOf(st))
    decreases plans
  {
    hide TextOf, Start, Lz, Step, Spells, AllSound;
    if plans != [] {
      var p, ts := plans[0].packet, plans[0].tokens;
      assert Packets(plans)[1..] == Packets(plans[1..]);
      if p.Compressed() {
        ExpandInverts(st, p, ts);
        var text := Lz(Start(TextOf(st), p), ts, p.Big());
        TextIs(text);
        Slice(text, |Start(TextOf(st), p).said|);
        SessionRoundTrip(Step(st, p).st, plans[1..]);
      } else {
        PlainStep(st, p);
        SessionRoundTrip(st, plans[1..]);
      }
    }
  }

  lemma PlainStep(st: State, p: Packet)
    requires st.Valid() && !p.Compressed()
    ensures Step(st, p).st == st && Piece(Step(st, p), p) == p.data
  {
  }
}
