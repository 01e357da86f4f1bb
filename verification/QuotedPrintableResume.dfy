/** What the decoder's count is for: where to go on when the output buffer was full. */
module QuotedPrintableResume {
  import opened Text
  import opened QuotedPrintable

  predicate AllWs(w: string) { forall c :: c in w ==> IsWs(c) }

  /** White space that has been read is as if it were still to come. */
  lemma {:induction false} PendingIsUnread(v: string, w: string, t: string, room: nat)
    requires AllWs(w)
    ensures Decode(w + t, v, room).out == Decode(t, v + w, room).out
    decreases |w|
  {
    hide DecodeChar;
    if w == "" {
      assert w + t == t && v + w == v;
    } else {
      assert w[0] in w && (w + t)[0] == w[0] && (w + t)[1..] == w[1..] + t;
      PendingIsUnread(v + [w[0]], w[1..], t, room);
      assert v + [w[0]] + w[1..] == v + w;
    }
  }

  /**
   * A run with less room stops at a point from which a second run gives the rest: the two outputs
   * are that of one run with the room of both.
   */
  lemma {:induction false} Resume(t: string, w: string, room: nat, more: nat)
    requires AllWs(w)
    ensures var first := Decode(t, w, room);
      && 0 <= |w| + first.used <= |w| + |t| && |first.out| <= room
      && Decode(t, w, room + more).out == first.out + Decode((w + t)[|w| + first.used..], "", more).out
    decreases |t|, 1
  {
    hide Decode, DecodeChar;
    if t == "" || room == 0 {
      DecodeStops(t, w, room);
      assert (w + t)[0..] == w + t && "" + w == w;
      PendingIsUnread("", w, t, more);
      if t == "" {
        DecodeStops(t, w, room + more);
        DecodeStops(t, w, more);
      }
      assert "" + Decode(t, w, more).out == Decode(t, w, more).out;
    } else {
      Unfold(t, w, room);
      Unfold(t, w, room + more);
      if IsWs(t[0]) {
        Resume(t[1..], w + [t[0]], room, more);
        assert w + [t[0]] + t[1..] == w + t;
      } else if w != "" && t[0] != '\r' && t[0] != '\n' && |w| >= room {
        Stored(t, w, room, more);
      } else {
        var stored := if w != "" && t[0] != '\r' && t[0] != '\n' then w else "";
        ResumeChar(t, room - |stored|, more);
        var used := DecodeChar(t, room - |stored|).used;
        assert (w + t)[|w| + used..] == t[used..];
        Assoc(stored, DecodeChar(t, room - |stored|).out, Decode(t[used..], "", more).out);
        assert w == "" ==> "" + DecodeChar(t, room).out == DecodeChar(t, room).out;
      }
    }
  }

  /** The output is full in the middle of white space. */
  lemma Stored(t: string, w: string, room: nat, more: nat)
    requires AllWs(w) && t != "" && 0 < room <= |w| && !IsWs(t[0]) && t[0] != '\r' && t[0] != '\n'
    ensures Decode(t, w, room + more).out == w[..room] + Decode((w + t)[room..], "", more).out
  {
    hide Decode, DecodeChar;
    var left := w[room..];
    assert (w + t)[room..] == left + t && "" + left == left && w == w[..room] + left;
    forall c | c in left ensures IsWs(c) { assert c in w; }
    PendingIsUnread("", left, t, more);
    Unfold(t, w, room + more);
    if more == 0 {
      DecodeStops(t, left, more);
    } else {
      Unfold(t, left, more);
      if |w| >= room + more {
        assert w[..room + more] == w[..room] + left[..more];
      } else {
        Assoc(w[..room], left, DecodeChar(t, room + more - |w|).out);
        assert left == "" ==> w[..room] == w;
      }
    }
  }

  lemma {:induction false} ResumeChar(t: string, room: nat, more: nat)
    requires t != "" && room > 0 && !IsWs(t[0])
    ensures var first := DecodeChar(t, room);
      && 0 <= first.used <= |t| && |first.out| <= room
      && DecodeChar(t, room + more).out == first.out + Decode(t[first.used..], "", more).out
    decreases |t|, 0
  {
    hide Decode, DecodeChar, Strtoul16;
    UnfoldChar(t, room);
    UnfoldChar(t, room + more);
    if (t[0] == '=' && |t| <= 2) || (t[0] == '\r' && |t| <= 1) {
      Incomplete(t, more);
    } else {
      var soft := t[0] == '=' && t[1] == '\n';
      var n := if soft then 2 else if t[0] == '=' then 3 else if t[0] == '\r' then 2 else 1;
      var left := if soft then room else room - 1;
      Resume(t[n..], "", left, more);
      var used := Decode(t[n..], "", left).used;
      assert "" + t[n..] == t[n..] && t[n..][used..] == t[n + used..];
      var c := if soft then "" else if t[0] == '=' then [Strtoul16(t[1], t[2]) as char] else if t[0] == '\r' then "\n" else [t[0]];
      Assoc(c, Decode(t[n..], "", left).out, Decode(t[n + used..], "", more).out);
    }
  }

  /** An escape or a line end cut off at the end of the input is left alone, whatever room there is. */
  lemma Incomplete(t: string, room: nat)
    requires t != "" && !IsWs(t[0]) && ((t[0] == '=' && |t| <= 2) || (t[0] == '\r' && |t| <= 1))
    ensures Decode(t[0..], "", room).out == ""
  {
    assert t[0..] == t;
  }
}
