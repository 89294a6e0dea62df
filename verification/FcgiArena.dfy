/** The segmented string arena behind the environment hash (`fcgi_hash_strndup`). */
module FcgiArena {
  import opened FcgiRecord

  const SEG_SIZE := 4096

  /** A string in the arena: segment, offset and length without the terminating NUL. */
  datatype Str = Str(seg: nat, off: nat, len: nat)

  ghost predicate Disjoint(a: Str, b: Str) {
    a.seg != b.seg || a.off + a.len + 1 <= b.off || b.off + b.len + 1 <= a.off
  }

  lemma DisjointAbove(a: Str, b: Str)
    requires a.seg != b.seg || a.off + a.len + 1 <= b.off
    ensures Disjoint(a, b)
  {
  }

  ghost predicate AllDisjoint(hs: seq<(Str, seq<byte>)>) {
    forall i, j :: 0 <= i < j < |hs| ==> Disjoint(hs[i].0, hs[j].0)
  }

  lemma OneMore(hs: seq<(Str, seq<byte>)>, h: (Str, seq<byte>))
    requires AllDisjoint(hs) && forall i :: 0 <= i < |hs| ==> Disjoint(hs[i].0, h.0)
    ensures AllDisjoint(hs + [h])
  {
  }

  class Arena {
    var segs: seq<array<byte>>   // oldest first; the last one is being filled
    var pos: nat                 // first free byte of the last segment
    ghost var handed: seq<(Str, seq<byte>)>  // every string handed out since the last reset

    /** The bytes of segment `k` that are in use. */
    ghost function Used(k: nat): nat
      reads this
      requires k < |segs|
    {
      if k == |segs| - 1 then pos else segs[k].Length
    }

    ghost predicate Holds(s: Str, text: seq<byte>)
      reads this, segs
    {
      && s.seg < |segs| && s.off + s.len + 1 <= segs[s.seg].Length && s.len == |text|
      && (forall k :: 0 <= k < s.len ==> segs[s.seg][s.off + k] == text[k])
      && segs[s.seg][s.off + s.len] == 0
    }

    ghost predicate Valid()
      reads this, segs
    {
      && |segs| > 0 && segs[0].Length == SEG_SIZE && pos <= segs[|segs| - 1].Length
      && (forall i, j :: 0 <= i < j < |segs| ==> segs[i] != segs[j])
      && (forall i :: 0 <= i < |handed| ==> InUse(handed[i]))
      && AllDisjoint(handed)
    }

    /** A string that was handed out lies in the used part of its segment and still has its text. */
    ghost predicate InUse(h: (Str, seq<byte>))
      reads this, segs
    {
      Holds(h.0, h.1) && h.0.off + h.0.len + 1 <= Used(h.0.seg)
    }

    constructor ()
      ensures Valid() && handed == [] && fresh(segs)
    {
      pos, handed := 0, [];
      var seg := new byte[SEG_SIZE];
      segs := [seg];
    }

    /** `fcgi_hash_strndup`: a copy of `str` in unused bytes; a new segment when it does not fit. */
    method Strndup(str: seq<byte>) returns (s: Str)
      requires Valid()
      modifies this, segs[|segs| - 1]
      ensures Valid() && handed == old(handed) + [(s, str)]
      ensures segs[|segs| - 1] == old(segs[|segs| - 1]) || fresh(segs[|segs| - 1])
      ensures forall g :: g in segs ==> g in old(segs) || fresh(g)
      ensures old(segs) <= segs
    {
      var len := |str|;
      if pos + len + 1 >= segs[|segs| - 1].Length {
        var seg := new byte[if len + 1 > SEG_SIZE then len + 1 else SEG_SIZE];
        segs, pos := segs + [seg], 0;
      }
      s := Put(str);
    }

    method Put(str: seq<byte>) returns (s: Str)
      requires Valid() && pos + |str| + 1 <= segs[|segs| - 1].Length
      modifies this`pos, this`handed, segs[|segs| - 1]
      ensures Valid() && handed == old(handed) + [(s, str)]
    {
      hide Disjoint, AllDisjoint;
      s := Str(|segs| - 1, pos, |str|);
      CopyIn(segs[|segs| - 1], pos, str);
      pos := pos + |str| + 1;
      ghost var before := handed;
      handed := before + [(s, str)];
      forall i | 0 <= i < |before| ensures InUse(before[i]) && Disjoint(before[i].0, s) {
        assert old(InUse(before[i]));
        DisjointAbove(before[i].0, s);
      }
      OneMore(before, (s, str));
    }

    /** The arena part of `fcgi_hash_clean`: only the first segment stays, empty. */
    method Reset()
      requires Valid()
      modifies this
      ensures Valid() && handed == [] && segs == old(segs[..1])
    {
      while |segs| > 1
        invariant |segs| > 0 && segs == old(segs)[..|segs|]
      {
        segs := segs[..|segs| - 1];
      }
      pos, handed := 0, [];
    }
  }

  /** `memcpy` of `str` to `seg + at`, and the terminating NUL. */
  method CopyIn(seg: array<byte>, at: nat, str: seq<byte>)
    requires at + |str| < seg.Length
    modifies seg
    ensures forall k :: 0 <= k < |str| ==> seg[at + k] == str[k]
    ensures seg[at + |str|] == 0
    ensures forall k :: 0 <= k < seg.Length && !(at <= k <= at + |str|) ==> seg[k] == old(seg[k])
  {
    forall k | 0 <= k < |str| { seg[at + k] := str[k]; }
    seg[at + |str|] := 0;
  }
}
