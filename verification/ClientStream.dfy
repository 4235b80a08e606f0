/** Screen data from network clients: g15_recv, the frame loops of lcd_client_thread and
    g15daemon_convert_buf. */
module ClientStream {
  import opened Bits
  import opened Screen
  import opened Box
  import opened Transpose

  /** What one turn of the receive loop meets: bytes that have arrived (recv takes no more than it
      asked for and leaves the rest), an out-of-band command, nothing, or an end of some kind. */
  datatype Event = Arrived(data: seq<bv8>) | Command(cmd: seq<bv8>) | Quiet | Ended

  const FRAME_G := 6880
  const FRAME_R := 1048

  /** Does this turn leave the loop? A recv of nothing means the client has closed. */
  predicate Ends(e: Event) {
    e.Ended? || (e.Arrived? && |e.data| == 0)
  }

  /** The client's byte stream: everything that arrives before the end. */
  function Payload(events: seq<Event>): seq<bv8> {
    if |events| == 0 || Ends(events[0]) then []
    else (if events[0].Arrived? then events[0].data else []) + Payload(events[1..])
  }

  /** The commands sent before the end, in order. */
  function Commands(events: seq<Event>): seq<seq<bv8>> {
    if |events| == 0 || Ends(events[0]) then []
    else (if events[0].Command? then [events[0].cmd] else []) + Commands(events[1..])
  }

  lemma Associates<T>(a: seq<T>, b: seq<T>, c: seq<T>)
    ensures a + b + c == a + (b + c)
  {
  }

  lemma NothingLeft()
    ensures Payload([]) == [] && Commands([]) == []
  {
  }

  lemma Turn(events: seq<Event>)
    requires |events| > 0
    ensures var e := events[0];
            && Payload(events) == (if Ends(e) then [] else (if e.Arrived? then e.data else []) + Payload(events[1..]))
            && Commands(events)
               == (if Ends(e) then [] else (if e.Command? then [e.cmd] else []) + Commands(events[1..]))
  {
  }

  lemma PutBack(data: seq<bv8>, events: seq<Event>)
    requires |data| > 0
    ensures Payload([Arrived(data)] + events) == data + Payload(events)
    ensures Commands([Arrived(data)] + events) == Commands(events)
  {
    assert ([Arrived(data)] + events)[1..] == events;
  }

  /** The successive whole blocks of n bytes. */
  function Blocks(s: seq<bv8>, n: nat): seq<seq<bv8>>
    requires n > 0
  {
    if |s| < n then [] else [s[..n]] + Blocks(s[n..], n)
  }

  class Connection {
    var events: seq<Event>
    var commands: seq<seq<bv8>>

    constructor (events: seq<Event>)
      ensures this.events == events && commands == []
    {
      this.events, commands := events, [];
    }

    /** recv on a socket with data: at most n bytes of what has arrived; the rest stays. */
    method Take(n: nat) returns (data: seq<bv8>)
      requires |events| > 0 && events[0].Arrived? && n > 0
      modifies this
      ensures |data| <= n && commands == old(commands)
      ensures |events| < old(|events|) || (|events| == old(|events|) && |data| == n)
      ensures if |data| == 0 then Ends(old(events)[0])
              else data + Payload(events) == old(Payload(events)) && Commands(events) == old(Commands(events))
    {
      hide Payload, Commands;
      Turn(events);
      var arrived := events[0].data;
      events := events[1..];
      if |arrived| <= n {
        return arrived;
      }
      data := arrived[..n];
      PutBack(arrived[n..], events);
      assert data + (arrived[n..] + Payload(events)) == arrived + Payload(events);
      events := [Arrived(arrived[n..])] + events;
    }

    /** g15_recv: as many of the next len bytes as arrive before the connection ends; commands in
        between are carried out. events runs dry when the daemon is leaving. */
    method Recv(len: nat) returns (buf: seq<bv8>)
      modifies this
      ensures |buf| <= len && |events| <= old(|events|)
      ensures if |buf| == len then
                buf + Payload(events) == old(Payload(events))
                && commands + Commands(events) == old(commands + Commands(events))
              else
                buf == old(Payload(events)) && commands == old(commands + Commands(events))
    {
      hide Payload, Commands;
      buf := [];
      var total, bytesleft := 0, len;
      NothingLeft();
      ghost var all, cmds := Payload(events), commands + Commands(events);
      while total < len && |events| > 0
        invariant total == |buf| <= len && total + bytesleft == len
        invariant buf + Payload(events) == all && commands + Commands(events) == cmds
        invariant |events| <= old(|events|)
        decreases |events|, bytesleft
      {
        Turn(events);
        if events[0].Command? {
          Associates(commands, [events[0].cmd], Commands(events[1..]));
          assert [] + Payload(events[1..]) == Payload(events[1..]);
          commands := commands + [events[0].cmd];
          events := events[1..];
        } else if events[0].Arrived? {
          ghost var before := buf;
          var data := Take(bytesleft);
          if |data| == 0 {
            break;
          }
          Associates(before, data, Payload(events));
          buf := buf + data;
          total := total + |data|;
          bytesleft := bytesleft - |data|;
        } else if events[0].Ended? {
          break;
        } else {
          assert [] + Payload(events[1..]) == Payload(events[1..]);
          assert [] + Commands(events[1..]) == Commands(events[1..]);
          events := events[1..];
        }
      }
      assert |events| == 0 ==> events == [];
      assert buf + [] == buf && commands + [] == commands;
    }
  }

  /** The pixels of a one-byte-per-pixel frame in the packed form. */
  ghost predicate Packs(buf: Buffer, orig: seq<bv8>)
    requires |orig| == FRAME_G
  {
    forall x, y :: OnScreen(x, y) ==> Pixel(buf, x, y) == (orig[x + y * WIDTH] != 0)
  }

  /** g15daemon_convert_buf: column by column, one bit per byte, and no other bit. */
  method ConvertBuf(buf: array<bv8>, orig: seq<bv8>)
    requires buf.Length == BUFFER_LEN && |orig| == FRAME_G
    modifies buf
    ensures Packs(buf[..], orig)
    ensures forall p :: WIDTH * HEIGHT <= p < 8 * BUFFER_LEN ==> PixelAt(buf[..], p) == PixelAt(old(buf[..]), p)
  {
    hide PixelAt, Plot, SetBit;
    ghost var was: Buffer := buf[..];
    for x := 0 to WIDTH
      invariant forall u, v :: OnScreen(u, v) && u < x ==> Pixel(buf[..], u, v) == (orig[u + v * WIDTH] != 0)
      invariant forall p :: WIDTH * HEIGHT <= p < 8 * BUFFER_LEN ==> PixelAt(buf[..], p) == PixelAt(was, p)
    {
      for y := 0 to HEIGHT
        invariant forall u, v :: OnScreen(u, v) && (u < x || (u == x && v < y)) ==>
                        Pixel(buf[..], u, v) == (orig[u + v * WIDTH] != 0)
        invariant forall p :: WIDTH * HEIGHT <= p < 8 * BUFFER_LEN ==> PixelAt(buf[..], p) == PixelAt(was, p)
      {
        ConvertPixel(buf, orig, x, y);
      }
    }
  }

  /** One byte of the frame into one bit of the buffer. */
  method ConvertPixel(buf: array<bv8>, orig: seq<bv8>, x: nat, y: nat)
    requires buf.Length == BUFFER_LEN && |orig| == FRAME_G && OnScreen(x, y)
    modifies buf
    ensures forall p :: 0 <= p < 8 * BUFFER_LEN ==>
              PixelAt(buf[..], p) == if p == Offset(x, y) then orig[x + y * WIDTH] != 0 else PixelAt(old(buf[..]), p)
  {
    hide PixelAt, Plot, SetBit;
    var pixelOffset := y * WIDTH + x;
    var byteOffset := pixelOffset / 8;
    var bitOffset := 7 - pixelOffset % 8;
    var val := orig[x + y * WIDTH];
    ghost var before: Buffer := buf[..];
    ghost var d := Dot(x, y, if val != 0 then 1 else 0);
    buf[byteOffset] := SetBit(buf[byteOffset], bitOffset, val != 0);
    PlainPlot(before, x, y, val != 0);
    assert buf[..] == Plot(before, Mode(false, false), d);
    forall p | 0 <= p < 8 * BUFFER_LEN
      ensures PixelAt(buf[..], p) == if p == pixelOffset then val != 0 else PixelAt(before, p)
    {
      PlotAt(before, Mode(false, false), d, p);
    }
  }

  lemma PlainPlot(buf: Buffer, x: int, y: int, on: bool)
    requires OnScreen(x, y)
    ensures var p := Offset(x, y);
            Plot(buf, Mode(false, false), Dot(x, y, if on then 1 else 0))
            == buf[p / 8 := SetBit(buf[p / 8], 7 - p % 8, on)]
  {
    hide PixelAt, SetBit;
  }

  /** The display of a client, and what the daemon has shown of it. */
  class Display {
    const buf: array<bv8>
    ghost var shown: seq<Buffer>

    constructor ()
      ensures buf.Length == BUFFER_LEN && fresh(buf) && shown == []
    {
      buf := new bv8[BUFFER_LEN](_ => 0);
      shown := [];
    }
  }

  ghost predicate ShowsPacked(shown: seq<Buffer>, frames: seq<seq<bv8>>) {
    |shown| == |frames| && forall i :: 0 <= i < |shown| ==> |frames[i]| == FRAME_G && Packs(shown[i], frames[i])
  }

  /** lcd_client_thread after the greeting, for the two fixed-size buffer types. */
  method ServeClient(client: Connection, lcd: Display)
    requires lcd.buf.Length == BUFFER_LEN && lcd.shown == []
    modifies client, lcd, lcd.buf
    ensures var all := old(Payload(client.events));
            && (|all| < 4 ==> lcd.shown == [])
            && (|all| >= 4 && all[0] == 0x47 ==> ShowsPacked(lcd.shown, Blocks(all[4..], FRAME_G)))
            && (|all| >= 4 && all[0] == 0x52 ==> lcd.shown == Blocks(all[4..], FRAME_R))
            && (|all| < 4 || all[0] == 0x47 || all[0] == 0x52 ==>
                    client.commands == old(client.commands + Commands(client.events)))
  {
    var tmpbuf := client.Recv(4);
    if |tmpbuf| < 4 {
      return;
    }
    ghost var rest := Payload(client.events);
    assert tmpbuf + rest == old(Payload(client.events)) && rest == old(Payload(client.events))[4..];
    if tmpbuf[0] == 0x47 {
      ServeG(client, lcd);
    } else if tmpbuf[0] == 0x52 {
      ServeR(client, lcd);
    }
  }

  method ServeG(client: Connection, lcd: Display)
    requires lcd.buf.Length == BUFFER_LEN && lcd.shown == []
    modifies client, lcd, lcd.buf
    ensures ShowsPacked(lcd.shown, Blocks(old(Payload(client.events)), FRAME_G))
    ensures client.commands == old(client.commands + Commands(client.events))
  {
    hide Packs, Blocks, Payload, Commands;
    ghost var all, cmds := Payload(client.events), client.commands + Commands(client.events);
    ghost var frames: seq<seq<bv8>> := [];
    var serving := true;
    while serving
      invariant ShowsPacked(lcd.shown, frames)
      invariant serving ==> frames + Blocks(Payload(client.events), FRAME_G) == Blocks(all, FRAME_G)
      invariant serving ==> client.commands + Commands(client.events) == cmds
      invariant !serving ==> frames == Blocks(all, FRAME_G) && client.commands == cmds
      decreases serving, |Payload(client.events)|
    {
      ghost var before := Payload(client.events);
      var tmpbuf := client.Recv(FRAME_G);
      BlockStep(before, tmpbuf, Payload(client.events), FRAME_G);
      if |tmpbuf| != FRAME_G {
        serving := false;
      } else {
        ShowFrame(lcd, tmpbuf);
        assert frames + ([tmpbuf] + Blocks(Payload(client.events), FRAME_G))
          == frames + [tmpbuf] + Blocks(Payload(client.events), FRAME_G);
        frames := frames + [tmpbuf];
      }
    }
  }

  method ShowFrame(lcd: Display, frame: seq<bv8>)
    requires lcd.buf.Length == BUFFER_LEN && |frame| == FRAME_G
    modifies lcd`shown, lcd.buf
    ensures |lcd.shown| == old(|lcd.shown|) + 1 && lcd.shown[..old(|lcd.shown|)] == old(lcd.shown)
    ensures Packs(lcd.shown[old(|lcd.shown|)], frame)
  {
    hide Packs;
    forall i | 0 <= i < 1024 {
      lcd.buf[i] := 0;
    }
    ConvertBuf(lcd.buf, frame);
    lcd.shown := lcd.shown + [lcd.buf[..]];
  }

  lemma BlockStep(before: seq<bv8>, buf: seq<bv8>, after: seq<bv8>, n: nat)
    requires n > 0 && |buf| <= n && if |buf| == n then buf + after == before else buf == before
    ensures Blocks(before, n) == if |buf| == n then [buf] + Blocks(after, n) else []
  {
    if |buf| == n {
      assert before[..n] == buf && before[n..] == after;
    }
  }

  method ServeR(client: Connection, lcd: Display)
    requires lcd.buf.Length == BUFFER_LEN && lcd.shown == []
    modifies client, lcd, lcd.buf
    ensures lcd.shown == Blocks(old(Payload(client.events)), FRAME_R)
    ensures client.commands == old(client.commands + Commands(client.events))
  {
    hide Blocks, Payload, Commands;
    ghost var all, cmds := Payload(client.events), client.commands + Commands(client.events);
    var serving := true;
    while serving
      invariant serving ==> lcd.shown + Blocks(Payload(client.events), FRAME_R) == Blocks(all, FRAME_R)
      invariant serving ==> client.commands + Commands(client.events) == cmds
      invariant !serving ==> lcd.shown == Blocks(all, FRAME_R) && client.commands == cmds
      decreases serving, |Payload(client.events)|
    {
      ghost var before := Payload(client.events);
      var tmpbuf := client.Recv(FRAME_R);
      BlockStep(before, tmpbuf, Payload(client.events), FRAME_R);
      if |tmpbuf| != FRAME_R {
        serving := false;
      } else {
        forall i | 0 <= i < BUFFER_LEN {
          lcd.buf[i] := tmpbuf[i];
        }
        assert lcd.buf[..] == tmpbuf;
        Associates(lcd.shown, [tmpbuf], Blocks(Payload(client.events), FRAME_R));
        lcd.shown := lcd.shown + [lcd.buf[..]];
      }
    }
  }

  /** How the bytes are cut into arrivals does not matter: any other cutting of the same stream
      has the same payload, and so the same frames. */
  lemma {:induction false} CutAnywhere(events: seq<Event>, more: seq<Event>, a: seq<bv8>, b: seq<bv8>)
    requires |a| > 0 && |b| > 0 && forall i :: 0 <= i < |events| ==> !Ends(events[i])
    ensures Payload(events + [Arrived(a + b)] + more) == Payload(events + [Arrived(a), Arrived(b)] + more)
    decreases |events|
  {
    var whole, cut := events + [Arrived(a + b)] + more, events + [Arrived(a), Arrived(b)] + more;
    if |events| == 0 {
      assert whole[1..] == more && cut[1..] == [Arrived(b)] + more && cut[1..][1..] == more;
    } else {
      CutAnywhere(events[1..], more, a, b);
      assert whole[1..] == events[1..] + [Arrived(a + b)] + more;
      assert cut[1..] == events[1..] + [Arrived(a), Arrived(b)] + more;
    }
  }

  /** Nor does it matter where commands and idle turns fall between the arrivals. */
  lemma {:induction false} CommandAnywhere(events: seq<Event>, more: seq<Event>, c: Event)
    requires c.Command? || c.Quiet?
    ensures Payload(events + [c] + more) == Payload(events + more)
    decreases |events|
  {
    var with_ := events + [c] + more;
    if |events| == 0 {
      assert with_[1..] == more && events + more == more;
    } else {
      CommandAnywhere(events[1..], more, c);
      assert with_[1..] == events[1..] + [c] + more;
      assert (events + more)[1..] == events[1..] + more;
    }
  }

  /** A packed frame has the pixels that drawing the same map with pixelOverlay gives. */
  lemma PacksLikeOverlay(buf: Buffer, orig: seq<bv8>, colormap: seq<int>, canvas: Buffer, x: int, y: int)
    requires |orig| == FRAME_G == |colormap| && Packs(buf, orig) && OnScreen(x, y)
    requires forall i :: 0 <= i < FRAME_G ==> (orig[i] != 0 <==> colormap[i] != 0)
    ensures Pixel(buf, x, y)
       == Pixel(PlotAll(canvas, Mode(false, false), OverlayDots(0, 0, WIDTH, HEIGHT, colormap)), x, y)
  {
    hide PlotAll, PixelAt, OverlayDots;
    OverlayExact(canvas, Mode(false, false), 0, 0, WIDTH, HEIGHT, colormap, x, y);
  }

  /** From the client's bytes to the keyboard: byte x + 160*y of a frame decides bit y mod 8 of
      display byte 160*(y/8) + x. */
  lemma FrameOnDisplay(buf: Buffer, orig: seq<bv8>, x: nat, y: nat)
    requires |orig| == FRAME_G && Packs(buf, orig) && x < 160 && y < 43
    ensures Bit(Dumped(buf)[160 * (y / 8) + x], y % 8) <==> orig[x + 160 * y] != 0
  {
    hide Bit, Dumped;
    DumpedPixel(buf, x, y);
    var p := Offset(x, y);
    assert p / 8 == RowIndex(x, y) && p % 8 == x % 8;
    assert Pixel(buf, x, y) == PixelAt(buf, p);
  }

  // ---- the stream, piece by piece ----

  /** A frame of type G has exactly one byte for each pixel of the screen, and one of type R is a whole
      canvas buffer. */
  lemma FrameCovers(i: int)
    ensures FRAME_R == BUFFER_LEN
    ensures 0 <= i < FRAME_G <==> exists x, y :: OnScreen(x, y) && i == Place(x, y)
    ensures forall x, y, u, v :: OnScreen(x, y) && OnScreen(u, v) && Place(x, y) == Place(u, v) ==> x == u && y == v
  {
    if 0 <= i < FRAME_G {
      assert OnScreen(i % 160, i / 160) && i == Place(i % 160, i / 160);
    }
  }

  function Place(x: int, y: int): int {
    x + 160 * y
  }

  /** What streams hold one after the other they hold together, until one ends. */
  lemma {:induction false} StreamConcat(a: seq<Event>, b: seq<Event>)
    requires forall i :: 0 <= i < |a| ==> !Ends(a[i])
    ensures Payload(a + b) == Payload(a) + Payload(b) && Commands(a + b) == Commands(a) + Commands(b)
  {
    hide Payload, Commands;
    NothingLeft();
    if |a| == 0 {
      assert a + b == b && [] + Payload(b) == Payload(b) && [] + Commands(b) == Commands(b);
    } else {
      StreamConcat(a[1..], b);
      assert (a + b)[1..] == a[1..] + b && (a + b)[0] == a[0];
      Turn(a);
      Turn(a + b);
      Associates(if a[0].Arrived? then a[0].data else [], Payload(a[1..]), Payload(b));
      Associates(if a[0].Command? then [a[0].cmd] else [], Commands(a[1..]), Commands(b));
    }
  }

  /** One event alone: arrived bytes are payload, a command is a command, nothing is nothing, and what
      follows an end - or an arrival of no bytes - does not count. */
  lemma SingleEvents(data: seq<bv8>, more: seq<Event>)
    ensures |data| > 0 ==> Payload([Arrived(data)]) == data && Commands([Arrived(data)]) == []
    ensures Payload([Command(data)]) == [] && Commands([Command(data)]) == [data]
    ensures Payload([Quiet]) == [] && Commands([Quiet]) == []
    ensures Payload([Ended] + more) == [] && Commands([Ended] + more) == []
    ensures Payload([Arrived([])] + more) == [] && Commands([Arrived([])] + more) == []
  {
    assert [Arrived(data)][1..] == [] && [Command(data)][1..] == [] && [Quiet][1..] == [];
  }

  /** The i-th of the blocks of n bytes is bytes i*n to i*n + n - 1, and there are as many as fit. */
  lemma {:induction false} BlockAt(s: seq<bv8>, n: nat, i: nat)
    requires n > 0 && i < |Blocks(s, n)|
    ensures 0 <= i * n <= i * n + n <= |s| && Blocks(s, n)[i] == s[i * n..i * n + n]
  {
    if i > 0 {
      BlockAt(s[n..], n, i - 1);
      assert (i - 1) * n + n == i * n;
    }
  }

  lemma {:induction false} BlockCount(s: seq<bv8>, n: nat)
    requires n > 0
    ensures |Blocks(s, n)| * n <= |s| < |Blocks(s, n)| * n + n
    decreases |s|
  {
    if |s| >= n {
      BlockCount(s[n..], n);
      var k := |Blocks(s[n..], n)|;
      assert (k + 1) * n == k * n + n;
    }
  }
}
