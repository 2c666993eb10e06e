/**
 ceph_get_osd_crush_location: the CRUSH location of an OSD, a list of (type,
 name) pairs, packed into a caller's buffer as NUL-terminated strings.
 */
module CrushLocation {
  import opened CInt
  import opened Options

  type Pair = (string, string)

  const NUL: char := 0 as char

  const EINVAL: int := 22
  const ERANGE: int := 34
  const ENOTCONN: int := 107

  // -------------------------------------------------- format and parser

  function EncodedPair(p: Pair): string {
    p.0 + [NUL] + (p.1 + [NUL])
  }

  /** All pairs one after the other. */
  function Encoded(loc: seq<Pair>): string {
    if loc == [] then "" else Encoded(loc[..|loc| - 1]) + EncodedPair(loc[|loc| - 1])
  }

  predicate NulFree(loc: seq<Pair>) {
    forall i :: 0 <= i < |loc| ==> NUL !in loc[i].0 && NUL !in loc[i].1
  }

  /** The length of the C string at the start of s. */
  function StrLen(s: string): (n: nat)
    ensures n <= |s|
  {
    if s == "" || s[0] == NUL then 0 else 1 + StrLen(s[1..])
  }

  lemma {:induction false} StrLenIsNulFree(s: string)
    ensures NUL !in s[..StrLen(s)]
    ensures NUL !in s ==> StrLen(s) == |s|
    decreases |s|
  {
    if s != "" && s[0] != NUL {
      StrLenIsNulFree(s[1..]);
      assert s[..StrLen(s)] == [s[0]] + s[1..][..StrLen(s) - 1];
    }
  }

  /** Read pairs of C strings until the bytes are used up. */
  function Parse(s: string): Option<seq<Pair>>
    decreases |s|
  {
    if s == "" then Some([])
    else
      var m := StrLen(s);
      if m == |s| then None
      else
        var rest := s[m + 1..];
        var n := StrLen(rest);
        if n == |rest| then None
        else match Parse(rest[n + 1..])
          case None => None
          case Some(more) => Some([(s[..m], rest[..n])] + more)
  }

  lemma {:induction false} StrLenAt(a: string, b: string)
    requires NUL !in a
    ensures StrLen(a + [NUL] + b) == |a|
    ensures (a + [NUL] + b)[..|a|] == a && (a + [NUL] + b)[|a| + 1..] == b
    decreases |a|
  {
    if a != "" {
      StrLenAt(a[1..], b);
      assert (a + [NUL] + b)[1..] == a[1..] + [NUL] + b;
    }
  }

  lemma ParseOnePair(p: Pair, rest: string, more: seq<Pair>)
    requires NUL !in p.0 && NUL !in p.1 && Parse(rest) == Some(more)
    ensures Parse(EncodedPair(p) + rest) == Some([p] + more)
  {
    var tail := p.1 + [NUL] + rest;
    assert EncodedPair(p) + rest == p.0 + [NUL] + tail;
    StrLenAt(p.0, tail);
    StrLenAt(p.1, rest);
  }

  lemma {:induction false} EncodedHead(loc: seq<Pair>)
    requires loc != []
    ensures Encoded(loc) == EncodedPair(loc[0]) + Encoded(loc[1..])
    decreases |loc|
  {
    var before, last := loc[..|loc| - 1], loc[|loc| - 1];
    if |loc| == 1 {
      assert before == [] && loc[1..] == [];
    } else {
      EncodedHead(before);
      assert before[1..] == loc[1..][..|loc[1..]| - 1];
      var mid := Encoded(before[1..]);
      assert (EncodedPair(loc[0]) + mid) + EncodedPair(last) == EncodedPair(loc[0]) + (mid + EncodedPair(last));
    }
  }

  /** The packed bytes of NUL-free pairs parse back to those pairs. */
  lemma {:induction false} ParseEncoded(loc: seq<Pair>)
    requires NulFree(loc)
    ensures Parse(Encoded(loc)) == Some(loc)
    decreases |loc|
  {
    if loc != [] {
      ParseEncoded(loc[1..]);
      ParseOnePair(loc[0], Encoded(loc[1..]), loc[1..]);
      EncodedHead(loc);
      assert loc == [loc[0]] + loc[1..];
    }
  }

  lemma NulFreeCons(p: Pair, more: seq<Pair>)
    requires NUL !in p.0 && NUL !in p.1 && NulFree(more)
    ensures NulFree([p] + more)
  {
  }

  /** What can be parsed is free of NULs. */
  lemma {:induction false} ParsedIsNulFree(s: string)
    requires Parse(s).Some?
    ensures NulFree(Parse(s).value)
    decreases |s|
  {
    if s != "" {
      var m := StrLen(s);
      var rest := s[m + 1..];
      var n := StrLen(rest);
      ParsedIsNulFree(rest[n + 1..]);
      StrLenIsNulFree(s);
      StrLenIsNulFree(rest);
      NulFreeCons((s[..m], rest[..n]), Parse(rest[n + 1..]).value);
    }
  }

  /** Bytes that are the encoding of NUL-free pairs parse to the list exactly when the list has no NUL. */
  lemma ParsesIffNulFree(bytes: string, loc: seq<Pair>)
    requires NulFree(loc) ==> bytes == Encoded(loc)
    ensures Parse(bytes) == Some(loc) <==> NulFree(loc)
  {
    if NulFree(loc) {
      ParseEncoded(loc);
    } else if Parse(bytes).Some? {
      ParsedIsNulFree(bytes);
    }
  }

  // ------------------------------------------------------ the serializer

  /** What strcpy copies: the string up to its first NUL, and a NUL. */
  function CString(s: string): (r: string)
    ensures |r| == StrLen(s) + 1
  {
    s[..StrLen(s)] + [NUL]
  }

  /** Nothing outside the stretch has changed. */
  ghost predicate SameOutside(now: string, was: string, at: nat, n: nat) {
    |now| == |was| && forall i :: 0 <= i < |now| && !(at <= i < at + n) ==> now[i] == was[i]
  }

  /** strcpy. */
  method StrCpy(path: array<char>, at: nat, s: string)
    requires at + |s| + 1 <= path.Length
    modifies path
    ensures path[at..at + |CString(s)|] == CString(s)
    ensures SameOutside(path[..], old(path[..]), at, |CString(s)|)
    ensures NUL !in s ==> CString(s) == s + [NUL]
  {
    var n := StrLen(s);
    StrLenIsNulFree(s);
    for i := 0 to n
      invariant forall k :: 0 <= k < i ==> path[at + k] == s[k]
      invariant forall k :: 0 <= k < path.Length && !(at <= k < at + i) ==> path[k] == old(path[k])
    {
      path[at + i] := s[i];
    }
    path[at + n] := NUL;
  }

  /** How many pairs, from the first on, fit into len bytes together. */
  ghost function Fitting(loc: seq<Pair>, len: nat): (n: nat)
    ensures n <= |loc|
  {
    if loc == [] then 0
    else if |Encoded(loc)| <= len then |loc|
    else Fitting(loc[..|loc| - 1], len)
  }

  /** One more pair changes how many fit only if all of them fit. */
  lemma FittingStep(loc: seq<Pair>, k: nat, len: nat)
    requires k < |loc|
    ensures Fitting(loc[..k + 1], len) == if |Encoded(loc[..k + 1])| <= len then k + 1 else Fitting(loc[..k], len)
    ensures |Encoded(loc[..k + 1])| == |Encoded(loc[..k])| + |loc[k].0| + |loc[k].1| + 2
    ensures |Encoded(loc[..k])| <= len ==> Fitting(loc[..k], len) == k
  {
    assert loc[..k + 1][..k] == loc[..k];
  }

  /** Writing the k-th pair behind the ones before it. */
  lemma PackedStep(now: string, before: string, was: string, len: nat, loc: seq<Pair>, k: nat)
    requires k < |loc| && |Encoded(loc[..k + 1])| <= len <= |was|
    requires Packed(before, was, len, loc[..k]) && |now| == |before|
    requires var a, b := |Encoded(loc[..k])|, |Encoded(loc[..k + 1])|;
             && a <= b && now[..a] == before[..a] && now[b..] == before[b..]
             && (NUL !in loc[k].0 && NUL !in loc[k].1 ==> now[a..b] == EncodedPair(loc[k]))
    ensures Packed(now, was, len, loc[..k + 1])
  {
    var a, b := |Encoded(loc[..k])|, |Encoded(loc[..k + 1])|;
    FittingStep(loc, k, len);
    assert loc[..k + 1][..k + 1] == loc[..k + 1] && loc[..k + 1][..k] == loc[..k] && loc[..k][..k] == loc[..k];
    assert before[b..] == before[a..][b - a..] && was[b..] == was[a..][b - a..];
    assert now[..b] == now[..a] + now[a..b];
  }

  /** Skipping the k-th pair because it does not fit. */
  lemma PackedSkip(now: string, was: string, len: nat, loc: seq<Pair>, k: nat)
    requires k < |loc| && |Encoded(loc[..k + 1])| > len && Packed(now, was, len, loc[..k])
    ensures Packed(now, was, len, loc[..k + 1])
  {
    FittingStep(loc, k, len);
    var f := Fitting(loc[..k], len);
    assert loc[..k + 1][..f] == loc[..k][..f];
    if NulFree(loc[..k + 1]) {
      assert forall i :: 0 <= i < k ==> loc[..k][i] == loc[..k + 1][i];
    }
  }

  /**
   Both strings of a pair, the second behind the room for the first: a string
   that holds a NUL leaves the rest of its room as it was.
   */
  method PutPair(path: array<char>, at: nat, p: Pair)
    requires at + |p.0| + |p.1| + 2 <= path.Length
    modifies path
    ensures path[at..at + |CString(p.0)|] == CString(p.0)
    ensures var next := at + |p.0| + 1; path[next..next + |CString(p.1)|] == CString(p.1)
    ensures forall i :: 0 <= i < path.Length ==>
      || at <= i < at + |CString(p.0)|
      || at + |p.0| + 1 <= i < at + |p.0| + 1 + |CString(p.1)|
      || path[i] == old(path[i])
    ensures NUL !in p.0 && NUL !in p.1 ==> path[at..at + |p.0| + |p.1| + 2] == EncodedPair(p)
  {
    StrCpy(path, at, p.0);
    ghost var first := path[..];
    StrCpy(path, at + |p.0| + 1, p.1);
    assert path[at..at + |CString(p.0)|] == first[at..at + |CString(p.0)|];
    if NUL !in p.0 && NUL !in p.1 {
      var next := at + |p.0| + 1;
      assert path[at..next + |p.1| + 1] == path[at..next] + path[next..next + |p.1| + 1];
    }
  }

  /** One turn of the packing loop on a pair that fits. */
  method PutNext(path: array<char>, ghost was: string, len: nat, loc: seq<Pair>, k: nat, cur: nat)
    requires k < |loc| && cur == |Encoded(loc[..k])| && |Encoded(loc[..k + 1])| <= len <= path.Length == |was|
    requires Packed(path[..], was, len, loc[..k])
    modifies path
    ensures Packed(path[..], was, len, loc[..k + 1])
  {
    FittingStep(loc, k, len);
    ghost var before, needed := path[..], |Encoded(loc[..k + 1])|;
    PutPair(path, cur, loc[k]);
    assert path[..][..cur] == before[..cur] && path[..][needed..] == before[needed..];
    assert path[..][cur..needed] == path[cur..needed];
    PackedStep(path[..], before, was, len, loc, k);
  }

  /** The packing loop: whole pairs are written as long as everything up to them fits. */
  method Pack(path: array?<char>, len: nat, loc: seq<Pair>) returns (needed: nat)
    requires path != null ==> len <= path.Length
    modifies if path != null then {path} else {}
    ensures needed == |Encoded(loc)|
    ensures path != null ==> Packed(path[..], old(path[..]), len, loc)
  {
    needed := 0;
    var cur := 0;
    assert path != null ==> path[..][..0] == "";
    for k := 0 to |loc|
      invariant needed == |Encoded(loc[..k])|
      invariant needed <= len ==> cur == needed
      invariant path != null ==> Packed(path[..], old(path[..]), len, loc[..k])
    {
      FittingStep(loc, k, len);
      var (t, n) := loc[k];
      needed := needed + |t| + |n| + 2;
      if needed <= len {
        if path != null {
          PutNext(path, old(path[..]), len, loc, k, cur);
        }
        cur := cur + |t| + 1;
        cur := cur + |n| + 1;
      } else if path != null {
        PackedSkip(path[..], old(path[..]), len, loc, k);
      }
    }
    assert loc[..|loc|] == loc;
  }

  /** The buffer after packing: the pairs that fit in front, and from there on what it held before. */
  ghost predicate Packed(now: string, was: string, len: nat, loc: seq<Pair>) {
    var front := Encoded(loc[..Fitting(loc, len)]);
    && |now| == |was| && |front| <= len && |front| <= |now|
    && now[|front|..] == was[|front|..]
    && (NulFree(loc) ==> now[..|front|] == front)
  }

  /**
   ceph_get_osd_crush_location. `osdRet` and `loc` are what the client says
   about the OSD. Only whole pairs are written, only in front of len; a result
   that fits parses back to the list exactly when no string holds a NUL. A null
   path, or len 0, only reports the size.
   */
  method GetOsdCrushLocation(mounted: bool, path: array?<char>, len: nat, osdRet: int, loc: seq<Pair>) returns (r: int)
    requires path != null ==> len <= path.Length
    modifies if path != null then {path} else {}
    ensures var size := |Encoded(loc)|;
            r == if !mounted then -ENOTCONN
                 else if path == null && len > 0 then -EINVAL
                 else if osdRet != 0 then osdRet
                 else if len > 0 && size > len then -ERANGE
                 else ToInt32(size)
    ensures path != null && !(mounted && osdRet == 0) ==> path[..] == old(path[..])
    ensures path != null && mounted && osdRet == 0 ==> Packed(path[..], old(path[..]), len, loc)
    ensures path != null && mounted && osdRet == 0 && |Encoded(loc)| <= len ==>
      (Parse(path[..|Encoded(loc)|]) == Some(loc) <==> NulFree(loc))
  {
    if !mounted {
      return -ENOTCONN;
    }
    if path == null && len > 0 {
      return -EINVAL;
    }
    if osdRet != 0 {
      return osdRet;
    }
    var needed := Pack(path, len, loc);
    if path != null && needed <= len {
      FittingFits(loc, len);
      assert loc[..|loc|] == loc && path[..][..needed] == path[..needed];
      ParsesIffNulFree(path[..needed], loc);
    }
    if len == 0 {
      return ToInt32(needed);
    }
    if needed > len {
      return -ERANGE;
    }
    return ToInt32(needed);
  }

  lemma {:induction false} FittingFits(loc: seq<Pair>, len: nat)
    ensures |Encoded(loc[..Fitting(loc, len)])| <= len
    ensures |Encoded(loc)| <= len ==> Fitting(loc, len) == |loc|
    decreases |loc|
  {
    if loc != [] {
      assert loc[..|loc|] == loc;
      var before := loc[..|loc| - 1];
      FittingFits(before, len);
      assert before[..Fitting(before, len)] == loc[..Fitting(before, len)];
    }
  }
}
