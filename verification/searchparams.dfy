/** `URLSearchParams` as the discover query uses it: an ordered list of
    name/value pairs, `set` as the WHATWG URL Standard defines it (section
    6.2), and `toString()`, the application/x-www-form-urlencoded serializer
    (section 5.2). `Parse` is the partner the round trip is stated against:
    it splits on `&`, skips empty runs, splits each run at its first `=` and
    decodes both halves, as the standard's parser (section 5.1) does for
    well-formed input. */
module SearchParams {
  import opened Wrappers
  import Text
  import Percent

  datatype Param = Param(name: string, value: string)

  function Names(ps: seq<Param>): (r: seq<string>)
    ensures |r| == |ps|
    ensures forall i :: 0 <= i < |ps| ==> r[i] == ps[i].name
  {
    if ps == [] then [] else [ps[0].name] + Names(ps[1..])
  }

  /** The pairs not named `n`, in order. */
  function Without(ps: seq<Param>, n: string): seq<Param> {
    if ps == [] then []
    else if ps[0].name == n then Without(ps[1..], n)
    else [ps[0]] + Without(ps[1..], n)
  }

  /** How many pairs are named `n`. */
  function Count(ps: seq<Param>, n: string): nat {
    if ps == [] then 0 else (if ps[0].name == n then 1 else 0) + Count(ps[1..], n)
  }

  lemma {:induction false} CountZero(ps: seq<Param>, n: string)
    ensures Count(ps, n) == 0 <==> n !in Names(ps)
  {
    if ps != [] {
      CountZero(ps[1..], n);
      assert Names(ps) == [ps[0].name] + Names(ps[1..]);
    }
  }

  lemma {:induction false} WithoutAbsent(ps: seq<Param>, n: string)
    requires n !in Names(ps)
    ensures Without(ps, n) == ps
  {
    if ps != [] {
      assert Names(ps) == [ps[0].name] + Names(ps[1..]);
      WithoutAbsent(ps[1..], n);
    }
  }

  lemma {:induction false} WithoutAppend(ps: seq<Param>, p: Param, n: string)
    ensures Without(ps + [p], n) == Without(ps, n) + Without([p], n)
    ensures Count(ps + [p], n) == Count(ps, n) + Count([p], n)
  {
    if ps != [] {
      assert (ps + [p])[1..] == ps[1..] + [p];
      WithoutAppend(ps[1..], p, n);
    } else {
      assert ps + [p] == [p];
    }
  }

  /** Gives the first pair named `n` the value `v` and drops the later ones. */
  function ReplaceFirst(ps: seq<Param>, n: string, v: string): (r: seq<Param>)
    requires n in Names(ps)
    ensures Count(r, n) == 1
    ensures Param(n, v) in r
    ensures Without(r, n) == Without(ps, n)
  {
    assert Names(ps) == [ps[0].name] + Names(ps[1..]);
    if ps[0].name == n then
      var tail := Without(ps[1..], n);
      WithoutNoName(ps[1..], n);
      CountZero(tail, n);
      WithoutAbsent(tail, n);
      [Param(n, v)] + tail
    else
      [ps[0]] + ReplaceFirst(ps[1..], n, v)
  }

  /** The new pair takes the slot of the first old one: the pairs before
      it are untouched, and after it come the later pairs not named `n`. */
  lemma {:induction false} ReplaceFirstSlot(pre: seq<Param>, first: Param, post: seq<Param>, v: string)
    requires first.name !in Names(pre)
    ensures first.name in Names(pre + [first] + post)
    ensures ReplaceFirst(pre + [first] + post, first.name, v)
            == pre + [Param(first.name, v)] + Without(post, first.name)
  {
    if pre == [] {
      SlotAtHead(first, post, v);
    } else {
      assert Names(pre) == [pre[0].name] + Names(pre[1..]);
      ReplaceFirstSlot(pre[1..], first, post, v);
      SlotBehind(pre, first, post, v);
    }
  }

  lemma SlotAtHead(first: Param, post: seq<Param>, v: string)
    ensures first.name in Names([] + [first] + post)
    ensures ReplaceFirst([] + [first] + post, first.name, v)
            == [] + [Param(first.name, v)] + Without(post, first.name)
  {
    var p := Param(first.name, v);
    assert [] + [first] + post == [first] + post;
    assert [] + [p] + Without(post, first.name) == [p] + Without(post, first.name);
    var ps := [first] + post;
    assert ps[0] == first && ps[1..] == post;
    assert Names(ps) == [first.name] + Names(post);
  }

  lemma SlotBehind(pre: seq<Param>, first: Param, post: seq<Param>, v: string)
    requires pre != [] && pre[0].name != first.name
    requires first.name in Names(pre[1..] + [first] + post)
    requires ReplaceFirst(pre[1..] + [first] + post, first.name, v)
             == pre[1..] + [Param(first.name, v)] + Without(post, first.name)
    ensures first.name in Names(pre + [first] + post)
    ensures ReplaceFirst(pre + [first] + post, first.name, v)
            == pre + [Param(first.name, v)] + Without(post, first.name)
  {
    HeadOff(pre, [first], post);
    HeadOff(pre, [Param(first.name, v)], Without(post, first.name));
    ReplaceFirstCons(pre[0], pre[1..] + [first] + post, first.name, v);
  }

  /** A pair with another name in front is passed over. */
  lemma ReplaceFirstCons(h: Param, tail: seq<Param>, n: string, v: string)
    requires h.name != n && n in Names(tail)
    ensures n in Names([h] + tail)
    ensures ReplaceFirst([h] + tail, n, v) == [h] + ReplaceFirst(tail, n, v)
  {
    var ps := [h] + tail;
    assert ps[0] == h && ps[1..] == tail;
    assert Names(ps) == [h.name] + Names(tail);
  }

  /** Splitting off the head of the first of three pieces. */
  lemma HeadOff<T>(a: seq<T>, b: seq<T>, c: seq<T>)
    requires a != []
    ensures a + b + c == [a[0]] + (a[1..] + b + c)
  {
    assert a == [a[0]] + a[1..];
  }

  lemma {:induction false} WithoutNoName(ps: seq<Param>, n: string)
    ensures n !in Names(Without(ps, n))
  {
    if ps != [] {
      WithoutNoName(ps[1..], n);
      if ps[0].name != n {
        assert Names(Without(ps, n)) == [ps[0].name] + Names(Without(ps[1..], n));
      }
    }
  }

  /** `params.set(n, v)`: afterwards exactly one pair is named `n` and it
      holds `v`; the pairs with other names keep their order; an existing
      name keeps the slot of its first pair, and a new name is appended at
      the end. */
  function Set(ps: seq<Param>, n: string, v: string): (r: seq<Param>)
    ensures Count(r, n) == 1 && Param(n, v) in r
    ensures Without(r, n) == Without(ps, n)
    ensures n !in Names(ps) ==> r == ps + [Param(n, v)]
  {
    if n in Names(ps) then ReplaceFirst(ps, n, v)
    else
      var r := ps + [Param(n, v)];
      WithoutAppend(ps, Param(n, v), n);
      CountZero(ps, n);
      WithoutAbsent(ps, n);
      r
  }

  /** Setting a name already present keeps the slot of its first pair
      (section 6.2 of the WHATWG URL Standard): the pairs before it are
      untouched, it holds the new value, and the later pairs of that name
      are removed. */
  lemma SetKeepsSlot(pre: seq<Param>, first: Param, post: seq<Param>, v: string)
    requires first.name !in Names(pre)
    ensures Set(pre + [first] + post, first.name, v) == pre + [Param(first.name, v)] + Without(post, first.name)
  {
    ReplaceFirstSlot(pre, first, post, v);
  }

  /** A run of `set` calls, in order. */
  function SetAll(ps: seq<Param>, sets: seq<Param>): seq<Param>
    decreases |sets|
  {
    if sets == [] then ps else SetAll(Set(ps, sets[0].name, sets[0].value), sets[1..])
  }

  /** `set` calls on distinct names, none present before, append in call
      order. */
  lemma {:induction false} SetAllFresh(ps: seq<Param>, sets: seq<Param>)
    requires forall i, j :: 0 <= i < j < |sets| ==> sets[i].name != sets[j].name
    requires forall i :: 0 <= i < |sets| ==> sets[i].name !in Names(ps)
    ensures SetAll(ps, sets) == ps + sets
    decreases |sets|
  {
    if sets != [] {
      var q := ps + [sets[0]];
      var rest := sets[1..];
      assert Set(ps, sets[0].name, sets[0].value) == q;
      StillFresh(ps, sets, q, rest);
      SetAllFresh(q, rest);
      SplitFirst(ps, sets);
    }
  }

  /** `set` calls on distinct names, made on an empty list, append in call
      order. */
  lemma SetAllDistinct(sets: seq<Param>)
    requires Distinct(Names(sets))
    ensures SetAll([], sets) == sets
  {
    forall i, j | 0 <= i < j < |sets|
      ensures sets[i].name != sets[j].name
    {
      assert Names(sets)[i] != Names(sets)[j];
    }
    SetAllFresh([], sets);
  }

  /** No name occurs twice. */
  predicate Distinct(ns: seq<string>) {
    forall i, j :: 0 <= i < j < |ns| ==> ns[i] != ns[j]
  }

  lemma DistinctConcat(xs: seq<string>, ys: seq<string>)
    requires Distinct(xs) && Distinct(ys)
    requires forall i :: 0 <= i < |xs| ==> xs[i] !in ys
    ensures Distinct(xs + ys)
  {
    var zs := xs + ys;
    forall i, j | 0 <= i < j < |zs|
      ensures zs[i] != zs[j]
    {
      if j >= |xs| && i < |xs| {
        assert zs[j] == ys[j - |xs|];
      }
    }
  }

  lemma SplitFirst<T>(ps: seq<T>, sets: seq<T>)
    requires |sets| >= 1
    ensures ps + [sets[0]] + sets[1..] == ps + sets
  {
    assert [sets[0]] + sets[1..] == sets;
  }

  /** After the first of several distinct fresh names is appended, the
      others are still fresh. */
  lemma StillFresh(ps: seq<Param>, sets: seq<Param>, q: seq<Param>, rest: seq<Param>)
    requires |sets| >= 1 && q == ps + [sets[0]] && rest == sets[1..]
    requires forall i, j :: 0 <= i < j < |sets| ==> sets[i].name != sets[j].name
    requires forall i :: 0 <= i < |sets| ==> sets[i].name !in Names(ps)
    ensures forall i, j :: 0 <= i < j < |rest| ==> rest[i].name != rest[j].name
    ensures forall i :: 0 <= i < |rest| ==> rest[i].name !in Names(q)
  {
    NamesConcat(ps, [sets[0]]);
    forall i | 0 <= i < |rest|
      ensures rest[i].name !in Names(q)
    {
      assert rest[i] == sets[i + 1];
      assert sets[0].name != sets[i + 1].name;
    }
    forall i, j | 0 <= i < j < |rest|
      ensures rest[i].name != rest[j].name
    {
      assert rest[i] == sets[i + 1] && rest[j] == sets[j + 1];
    }
  }

  lemma NamesConcat(ps: seq<Param>, qs: seq<Param>)
    ensures Names(ps + qs) == Names(ps) + Names(qs)
  {
  }

  function Segment(p: Param): string {
    Percent.Encode(Percent.FormUrlencoded, p.name) + "="
    + Percent.Encode(Percent.FormUrlencoded, p.value)
  }

  function Segments(ps: seq<Param>): (r: seq<string>)
    ensures |r| == |ps|
  {
    if ps == [] then [] else [Segment(ps[0])] + Segments(ps[1..])
  }

  lemma {:induction false} SegmentsAt(ps: seq<Param>, i: int)
    requires 0 <= i < |ps|
    ensures Segments(ps)[i] == Segment(ps[i])
  {
    var tail := Segments(ps[1..]);
    assert Segments(ps) == [Segment(ps[0])] + tail;
    if i > 0 {
      SegmentsAt(ps[1..], i - 1);
      assert ([Segment(ps[0])] + tail)[i] == tail[i - 1];
    }
  }

  /** `params.toString()`. */
  function Serialize(ps: seq<Param>): string {
    Text.Join(Segments(ps), "&")
  }

  /** Reads one `name=value` run; a run without `=` is a name with an
      empty value. */
  function ParseSegment(seg: string): Option<Param> {
    var cut := Text.IndexOf(seg, '=');
    var n := if cut.Some? then seg[..cut.value] else seg;
    var v := if cut.Some? then seg[cut.value + 1..] else "";
    match (Percent.Decode(n), Percent.Decode(v))
    case (Some(dn), Some(dv)) => Some(Param(dn, dv))
    case _ => None
  }

  function ParseSegments(segs: seq<string>): Option<seq<Param>> {
    if segs == [] then Some([])
    else if segs[0] == "" then ParseSegments(segs[1..])
    else match (ParseSegment(segs[0]), ParseSegments(segs[1..]))
      case (Some(p), Some(rest)) => Some([p] + rest)
      case _ => None
  }

  /** The decoder partner of `Serialize`. */
  function Parse(q: string): Option<seq<Param>> {
    ParseSegments(Text.Split(q, '&'))
  }

  lemma SegmentParses(p: Param)
    ensures '&' !in Segment(p)
    ensures Segment(p) != ""
    ensures ParseSegment(Segment(p)) == Some(p)
  {
    var en := Percent.Encode(Percent.FormUrlencoded, p.name);
    var ev := Percent.Encode(Percent.FormUrlencoded, p.value);
    Percent.EncodedHasNoDelimiters(Percent.FormUrlencoded, p.name);
    Percent.EncodedHasNoDelimiters(Percent.FormUrlencoded, p.value);
    var seg := Segment(p);
    assert seg == en + ['='] + ev;
    assert seg[|en|] == '=';
    Text.IndexOfAfter(en, '=', ev);
    assert seg[..|en|] == en && seg[|en| + 1..] == ev;
    Percent.EncodeRoundTrip(Percent.FormUrlencoded, p.name);
    Percent.EncodeRoundTrip(Percent.FormUrlencoded, p.value);
  }

  lemma {:induction false} ParseSegmentsOfSegments(ps: seq<Param>)
    ensures ParseSegments(Segments(ps)) == Some(ps)
  {
    if ps != [] {
      SegmentParses(ps[0]);
      ParseSegmentsOfSegments(ps[1..]);
      assert Segments(ps)[1..] == Segments(ps[1..]);
      assert [ps[0]] + ps[1..] == ps;
    }
  }

  /** Parsing the serialized list gives back the same pairs, in order. */
  lemma SerializeRoundTrip(ps: seq<Param>)
    ensures Parse(Serialize(ps)) == Some(ps)
  {
    if ps == [] {
      assert Serialize(ps) == "";
      assert Text.IndexOf("", '&') == None;
      assert Text.Split("", '&') == [""];
    } else {
      var segs := Segments(ps);
      forall i | 0 <= i < |segs|
        ensures '&' !in segs[i]
      {
        SegmentsAt(ps, i);
        SegmentParses(ps[i]);
      }
      Text.SplitJoin(segs, '&');
      ParseSegmentsOfSegments(ps);
    }
  }

  lemma ParseSegmentsCons(s: string, rest: seq<string>, p: Param, ps: seq<Param>)
    requires s != "" && ParseSegment(s) == Some(p)
    requires ParseSegments(rest) == Some(ps)
    ensures ParseSegments([s] + rest) == Some([p] + ps)
  {
    assert ([s] + rest)[1..] == rest;
  }

  /** A string that needs no escaping decodes to itself. */
  lemma PlainDecodes(s: string)
    requires Percent.KeepsAll(Percent.FormUrlencoded, s)
    ensures Percent.Decode(s) == Some(s)
  {
    Percent.EncodeRoundTrip(Percent.FormUrlencoded, s);
  }

  /** A run splits at its first `=`, so a name without `=` is read back
      whole and everything after it is the value. */
  lemma ParsePlainSegment(n: string, v: string)
    requires '=' !in n
    ensures ParseSegment(n + "=" + v)
            == match (Percent.Decode(n), Percent.Decode(v))
               case (Some(dn), Some(dv)) => Some(Param(dn, dv))
               case _ => None
  {
    var seg := n + "=" + v;
    assert seg == n + ['='] + v;
    Text.IndexOfAfter(n, '=', v);
    assert seg[..|n|] == n && seg[|n| + 1..] == v;
  }
}
