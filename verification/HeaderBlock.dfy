/** Bounding the next HTTP header block on a buffered connection without losing a byte of
    the stream (proxy/authority.go), over every way the network may cut it up. */
module HeaderBlock {
  import opened MaskedKeys

  // ---- What the outcome should be ----

  predicate Ends(s: Bytes, t: Bytes) {
    |t| <= |s| && s[|s| - |t|..] == t
  }

  const LF: Byte := 10

  /** The bytes so far end with a blank line, with or without carriage returns. */
  ghost predicate Terminated(s: Bytes) {
    Ends(s, [13, 10, 13, 10]) || Ends(s, [10, 10])
  }

  /** A header block ends at n and none ends before. */
  ghost predicate BlockAt(s: Bytes, n: nat) {
    n <= |s| && Terminated(s[..n]) && NoneBefore(s, n)
  }

  ghost predicate NoneBefore(s: Bytes, n: nat)
    requires n <= |s|
  {
    forall k | 0 <= k < n :: !Terminated(s[..k])
  }

  datatype Outcome = Complete | TooLarge | ReadError | EmptyConnection

  /** What must come of the pending bytes s, however they arrive. */
  ghost predicate Bounds(s: Bytes, limit: int, o: Outcome) {
    match o
    case Complete => exists n: nat :: BlockAt(s, n) && n <= limit
    case TooLarge => limit <= 0 || (|s| > limit && NoneBefore(s, limit + 1))
    case ReadError => 0 < |s| <= limit && NoneBefore(s, |s|) && !Terminated(s)
    case EmptyConnection => s == [] && limit > 0
  }

  /** The outcome is a function of the bytes. */
  lemma BoundsUnique(s: Bytes, limit: int, a: Outcome, b: Outcome)
    requires Bounds(s, limit, a) && Bounds(s, limit, b)
    ensures a == b
  {
  }

  // ---- Connections ----

  /** A connection with bytes put back in front of it: layers are what prepend has stacked
      up, network what the peer will still send before the connection ends. */
  class PrependConn {
    var layers: seq<Bytes>
    var network: Bytes

    constructor (network: Bytes)
      ensures Stream() == network && layers == []
    {
      layers, this.network := [], network;
    }

    ghost function Stream(): Bytes
      reads this
    {
      Concat(layers) + network
    }

    /** One Read into a buffer of the given room: as many bytes as there happen to be, at
        least one; the end may show with the last bytes or after them. */
    method Read(room: nat) returns (data: Bytes, ended: bool)
      requires room > 0
      modifies this
      ensures data + Stream() == old(Stream()) && |data| <= room
      ensures data == [] ==> ended
      ensures ended ==> Stream() == []
    {
      while layers != [] && layers[0] == []
        invariant Stream() == old(Stream())
        decreases |layers|
      {
        layers := layers[1..];
      }
      if layers != [] {
        var n := if |layers[0]| < room then |layers[0]| else room;
        data, ended := layers[0][..n], false;
        assert layers[0] == data + layers[0][n..];
        layers := [layers[0][n..]] + layers[1..];
      } else if network == [] {
        data, ended := [], true;
      } else {
        var n: nat :| 1 <= n <= |network| && n <= room;
        var early: bool := *;
        data := network[..n];
        network := network[n..];
        ended := early && network == [];
      }
    }

    /** prepend. */
    method Prepend(p: Bytes)
      modifies `layers
      ensures Stream() == p + old(Stream())
    {
      if |p| > 0 {
        layers := [p] + layers;
      }
    }
  }

  function Concat(layers: seq<Bytes>): Bytes {
    if layers == [] then [] else layers[0] + Concat(layers[1..])
  }

  // ---- Buffered reading ----

  datatype SliceError = NoError | BufferFull | Ended

  /** bufio.Reader: unread is what it has read ahead, at most size bytes; ended is an error
      it has seen but not yet reported. */
  class Reader {
    var src: PrependConn
    var unread: Bytes
    var ended: bool
    const size: nat

    constructor (src: PrependConn, size: nat)
      requires size > 0
      ensures Valid() && this.src == src && unread == []
    {
      this.src, unread, ended, this.size := src, [], false, size;
    }

    ghost predicate Valid()
      reads this, src
    {
      size > 0 && |unread| <= size && (ended ==> src.Stream() == [])
    }

    /** Every byte still to come. */
    ghost function Pending(): Bytes
      reads this, src
    {
      unread + src.Stream()
    }

    /** fill, with room in the buffer and no error waiting. */
    method Fill()
      requires Valid() && |unread| < size && !ended
      modifies `unread, `ended, src
      ensures Valid() && Pending() == old(Pending())
      ensures old(unread) <= unread && (unread == old(unread) ==> ended)
    {
      var data, end := src.Read(size - |unread|);
      unread, ended := unread + data, end;
    }

    /** ReadSlice(LF): up to and with the next line feed, or a full buffer, or all there is. */
    method ReadSlice() returns (fragment: Bytes, err: SliceError)
      requires Valid()
      modifies `unread, `ended, src
      ensures Valid() && fragment + Pending() == old(Pending())
      ensures err.NoError? ==> fragment != [] && LF !in fragment[..|fragment| - 1]
      ensures err.BufferFull? ==> fragment != [] && LF !in fragment
      ensures err.Ended? ==> LF !in fragment && Pending() == []
    {
      while LF !in unread && !ended && |unread| < size
        invariant Valid() && Pending() == old(Pending())
        decreases size - |unread|, !ended
      {
        Fill();
      }
      if LF in unread {
        var n := FirstLF(unread);
        fragment, err := unread[..n + 1], NoError;
        assert unread == fragment + unread[n + 1..];
        unread := unread[n + 1..];
      } else {
        fragment, err := unread, if ended then Ended else BufferFull;
        unread := [];
        ended := if err.Ended? then false else ended;
      }
    }

    /** io.ReadFull of exactly what is buffered. */
    method TakeBuffered() returns (data: Bytes)
      requires Valid()
      modifies `unread
      ensures Valid() && data + Pending() == old(Pending()) && unread == []
    {
      data := unread;
      unread := [];
    }
  }

  function FirstLF(s: Bytes): (n: nat)
    requires LF in s
    ensures n < |s| && s[n] == LF && LF !in s[..n]
  {
    if s[0] == LF then 0 else FirstLF(s[1..]) + 1
  }

  // ---- boundNextHeaderBlock ----

  /** No header block ends in the first h bytes, h included. */
  ghost predicate Scanned(s: Bytes, h: nat) {
    h <= |s| && NoneBefore(s, h) && !Terminated(s[..h])
  }

  lemma TerminatedEndsLine(s: Bytes)
    requires Terminated(s)
    ensures s != [] && s[|s| - 1] == LF
  {
    var t: Bytes := if Ends(s, [10, 10]) then [10, 10] else [13, 10, 13, 10];
    assert s[|s| - |t|..][|t| - 1] == s[|s| - 1];
  }

  /** Blocks end only where lines do, so a fragment with no line feed inside hides none. */
  lemma ScanFragment(s: Bytes, h: nat, f: Bytes)
    requires Scanned(s, h) && f != [] && h + |f| <= |s| && s[h..h + |f|] == f
    requires LF !in f[..|f| - 1]
    ensures NoneBefore(s, h + |f|)
    ensures LF !in f ==> !Terminated(s[..h + |f|])
  {
    forall k | h < k <= h + |f| && Terminated(s[..k]) ensures s[k - 1] == LF == f[k - 1 - h] {
      TerminatedEndsLine(s[..k]);
    }
    forall k | h < k < h + |f| ensures !Terminated(s[..k]) {
      assert f[k - 1 - h] == f[..|f| - 1][k - 1 - h];
    }
  }

  /** A fragment that overruns the limit: the whole block does. */
  lemma Overrun(s: Bytes, h: nat, f: Bytes, limit: nat)
    requires Scanned(s, h) && h <= limit < h + |f| <= |s| && s[h..h + |f|] == f
    requires LF !in f[..|f| - 1]
    ensures Bounds(s, limit, TooLarge)
  {
    ScanFragment(s, h, f);
  }

  /** What the loop has found: nothing yet, or why it stopped. */
  ghost predicate Found(s: Bytes, header: Bytes, limit: nat, o: Outcome) {
    && header <= s && |header| <= limit
    && match o
       case Complete => BlockAt(s, |header|)
       case ReadError => Scanned(s, |header|)
       case _ => false
  }

  lemma NextFragment(s: Bytes, header: Bytes, fragment: Bytes, rest: Bytes, limit: nat)
    requires header + fragment + rest == s && Found(s, header, limit, ReadError)
    requires fragment != [] ==> LF !in fragment[..|fragment| - 1]
    ensures |header| + |fragment| > limit ==> Bounds(s, limit, TooLarge) && rest == s[|header + fragment|..]
    ensures |header| + |fragment| <= limit
            ==> Found(s, header + fragment, limit, if Terminated(header + fragment) then Complete else ReadError)
  {
    assert s[..|header|] == header && s[..|header + fragment|] == header + fragment;
    if fragment == [] {
      assert header + fragment == header;
    } else {
      ScanFragment(s, |header|, fragment);
      if |header| + |fragment| > limit { Overrun(s, |header|, fragment, limit); }
    }
  }

  lemma FoundBounds(s: Bytes, header: Bytes, limit: nat, o: Outcome)
    requires Found(s, header, limit, o) && limit > 0 && (o == ReadError ==> header == s)
    ensures Bounds(s, limit, if o == ReadError && header == [] then EmptyConnection else o)
  {
    if o == ReadError { assert s[..|header|] == s; }
  }

  lemma Regrouped(a: Bytes, b: Bytes, c: Bytes, bc: Bytes)
    requires b + c == bc
    ensures a + b + c == a + bc
  {
  }

  /** The loop: reads on until a block ends, the limit is passed or the connection ends. */
  method ScanHeader(br: Reader, limit: nat) returns (header: Bytes, o: Outcome)
    requires br.Valid()
    modifies br`unread, br`ended, br.src
    ensures br.Valid()
    ensures header + br.Pending() == old(br.Pending())
    ensures o == TooLarge ==> Bounds(old(br.Pending()), limit, TooLarge)
    ensures o != TooLarge ==> Found(old(br.Pending()), header, limit, o)
    ensures o == ReadError ==> br.Pending() == []
  {
    ghost var s := br.Pending();
    header, o := [], ReadError;
    while true
      invariant br.Valid()
      invariant header + br.Pending() == s && Found(s, header, limit, ReadError) && o == ReadError
      decreases |br.Pending()|
    {
      ghost var pending := br.Pending();
      var fragment, err := br.ReadSlice();
      Regrouped(header, fragment, br.Pending(), pending);
      NextFragment(s, header, fragment, br.Pending(), limit);
      header := header + fragment;
      if |header| > limit {
        return header, TooLarge;
      }
      if Ends(header, [13, 10, 13, 10]) || Ends(header, [10, 10]) {
        return header, Complete;
      }
      if err.Ended? {
        return header, ReadError;
      }
    }
  }

  /** What was read of s goes back in front of the connection, and the reader starts anew. */
  method Replay(br: Reader, conn: PrependConn, header: Bytes, ghost s: Bytes)
    requires br.Valid() && br.src == conn && header + br.Pending() == s
    modifies br, conn
    ensures br.Valid() && br.src == conn && br.Pending() == s
  {
    ghost var pending := br.Pending();
    var prefetched := br.TakeBuffered();
    ghost var rest := conn.Stream();
    assert br.Pending() == rest;
    Regrouped(header, prefetched, rest, pending);
    var replay := header + prefetched;
    if |replay| > 0 {
      conn.Prepend(replay);
      br.unread, br.ended := [], false;
    } else {
      assert replay + rest == rest;
    }
    assert conn.Stream() == s;
  }

  /** For every stream, chunking, buffer size and limit: the outcome is the one the bytes
      call for, and unless the block is too large every byte can still be read. */
  method BoundNextHeaderBlock(br: Reader, conn: PrependConn, limit: int) returns (o: Outcome)
    requires br.Valid() && br.src == conn
    modifies br, conn
    ensures br.Valid() && br.src == conn
    ensures Bounds(old(br.Pending()), limit, o)
    ensures o != TooLarge ==> br.Pending() == old(br.Pending())
    ensures exists lost: Bytes :: lost + br.Pending() == old(br.Pending())
  {
    ghost var s := br.Pending();
    assert [] + s == s;
    if limit <= 0 {
      return TooLarge;
    }
    var header;
    header, o := ScanHeader(br, limit);
    if o == TooLarge {
      return;
    }
    FoundBounds(s, header, limit, o);
    Replay(br, conn, header, s);
    if o == ReadError && header == [] {
      o := EmptyConnection;
    }
  }

  /** drainBuffered: what to replay in front of the connection once the reader is dropped. */
  method DrainBuffered(br: Reader) returns (prefix: Bytes)
    requires br.Valid()
    ensures prefix + br.src.Stream() == br.Pending()
  {
    prefix := if br.unread == [] then [] else br.unread;
  }

  // ---- Header blocks as they are written ----

  /** Lines, each with its line end; blank lines are not for header blocks. */
  function Lines(lines: seq<Bytes>): Bytes {
    if lines == [] then [] else Lines(lines[..|lines| - 1]) + lines[|lines| - 1] + [13, 10]
  }

  ghost predicate HeaderLines(lines: seq<Bytes>) {
    forall i | 0 <= i < |lines| :: lines[i] != [] && LF !in lines[i]
  }

  lemma EndsWithLine(a: Bytes, line: Bytes)
    requires line != [] && LF !in line
    ensures !Terminated(a + line + [13, 10])
  {
    var s := a + line + [13, 10];
    assert s[|s| - 2] == 13 && s[|s| - 3] == line[|line| - 1];
    EndsAt(s, [10, 10], 0);
    EndsAt(s, [13, 10, 13, 10], 1);
  }

  lemma EndsAt(s: Bytes, t: Bytes, i: nat)
    requires i < |t|
    ensures Ends(s, t) ==> s[|s| - |t| + i] == t[i]
  {
    if Ends(s, t) { assert s[|s| - |t|..][i] == t[i]; }
  }

  lemma {:induction false} LinesScanned(lines: seq<Bytes>, rest: Bytes)
    requires HeaderLines(lines)
    ensures Scanned(Lines(lines) + rest, |Lines(lines)|)
    decreases |lines|
  {
    if lines != [] {
      var before, line := Lines(lines[..|lines| - 1]), lines[|lines| - 1];
      var f: Bytes := line + [13, 10];
      LinesScanned(lines[..|lines| - 1], f + rest);
      LineScanned(before, line, rest);
      assert before + (f + rest) == Lines(lines) + rest;
    }
  }

  lemma LineScanned(before: Bytes, line: Bytes, rest: Bytes)
    requires line != [] && LF !in line && Scanned(before + (line + [13, 10] + rest), |before|)
    ensures Scanned(before + (line + [13, 10] + rest), |before + line + [13, 10]|)
  {
    var f: Bytes := line + [13, 10];
    var s := before + (f + rest);
    assert s[|before|..|before| + |f|] == f && f[..|f| - 1] == line + [13];
    ScanFragment(s, |before|, f);
    EndsWithLine(before, line);
    assert s[..|before + f|] == before + line + [13, 10];
  }

  /** A header block, written as lines and a blank one, ends there and nowhere before; so it
      is complete exactly if it is within the limit, whatever follows and however the
      network cuts it up. */
  lemma WrittenBlock(lines: seq<Bytes>, rest: Bytes, limit: nat)
    requires lines != [] && HeaderLines(lines) && limit > 0
    ensures var s := Lines(lines) + [13, 10] + rest;
            && BlockAt(s, |Lines(lines)| + 2)
            && Bounds(s, limit, if |Lines(lines)| + 2 <= limit then Complete else TooLarge)
  {
    var head := Lines(lines);
    var s := head + [13, 10] + rest;
    assert s == head + ([13, 10] + rest);
    LinesScanned(lines, [13, 10] + rest);
    assert s[|head|..|head| + 2] == [13, 10] && [13, 10][..1] == [13];
    ScanFragment(s, |head|, [13, 10]);
    BlankEnds(lines, s);
    BlockBounds(s, |head| + 2, limit);
  }

  lemma BlockBounds(s: Bytes, n: nat, limit: nat)
    requires BlockAt(s, n) && limit > 0
    ensures Bounds(s, limit, if n <= limit then Complete else TooLarge)
  {
  }

  lemma BlankEnds(lines: seq<Bytes>, s: Bytes)
    requires lines != [] && Lines(lines) + [13, 10] <= s
    ensures Terminated(s[..|Lines(lines)| + 2])
  {
    var t := s[..|Lines(lines)| + 2];
    assert t == Lines(lines[..|lines| - 1]) + lines[|lines| - 1] + [13, 10, 13, 10];
    assert t[|t| - 4..] == [13, 10, 13, 10];
  }
}
