/** DNS names in wire format, with compression pointers (section 4.1.4 of RFC 1035). */
module DnsName {
  import opened Serial
  import opened Dissection

  const MAX_JUMPS: nat := 8
  const MAX_NAME: nat := 253
  const DOT: byte := 46

  type Label = seq<byte>

  /** Where the two-byte pointer that starts `s` leads. */
  function Target(s: seq<byte>): nat
    requires |s| >= 2 && s[0] >= 192
  {
    256 * (s[0] as int - 192) + s[1] as int
  }

  /** The labels from the start of `s`, the rest of the message somewhere, to the terminator,
      following at most `jumps` pointers into the message. */
  function Labels(msg: seq<byte>, s: seq<byte>, jumps: nat): Option<seq<Label>>
    decreases jumps, |s|
  {
    if s == [] then None
    else
      var len := s[0] as int;
      if len >= 192 then
        if |s| < 2 || Target(s) >= |msg| || jumps == 0 then None
        else Labels(msg, msg[Target(s)..], jumps - 1)
      else if len >= 64 then None
      else if len == 0 then Some([])
      else if |s| < 1 + len then None
      else Prepend([s[1..1 + len]], Labels(msg, s[1 + len..], jumps))
  }

  function Prepend(done: seq<Label>, rest: Option<seq<Label>>): Option<seq<Label>> {
    if rest.Some? then Some(done + rest.value) else None
  }

  /** How many bytes of `s` the name takes itself: up to its terminator or its first pointer. */
  function Own(s: seq<byte>): nat
    decreases |s|
  {
    if s == [] then 0
    else
      var len := s[0] as int;
      if len >= 192 then 2
      else if len == 0 then 1
      else if len >= 64 || |s| < 1 + len then 0
      else 1 + len + Own(s[1 + len..])
  }

  function Dotted(labels: seq<Label>): seq<byte> {
    if labels == [] then []
    else if |labels| == 1 then labels[0]
    else Dotted(labels[..|labels| - 1]) + [DOT] + labels[|labels| - 1]
  }

  function From(msg: seq<byte>, pos: nat): seq<byte> {
    if pos <= |msg| then msg[pos..] else []
  }

  datatype Name = Name(text: seq<byte>, consumed: int)

  /** The decoded name, "." for the root, and how many bytes it took at `offset`. */
  function Decoded(msg: seq<byte>, offset: nat): Option<Name> {
    var l := Labels(msg, From(msg, offset), MAX_JUMPS);
    if l.Some? && |Dotted(l.value)| <= MAX_NAME then
      Some(Name(if l.value == [] then [DOT] else Dotted(l.value), Own(From(msg, offset))))
    else None
  }

  lemma DottedSnoc(done: seq<Label>, l: Label)
    ensures Dotted(done + [l]) == if done == [] then l else Dotted(done) + [DOT] + l
  {
    assert (done + [l])[..|done|] == done;
  }

  lemma {:induction false} DottedGrows(done: seq<Label>, rest: seq<Label>)
    ensures |Dotted(done)| <= |Dotted(done + rest)|
    decreases |rest|
  {
    if rest == [] {
      assert done + rest == done;
    } else {
      var init := rest[..|rest| - 1];
      DottedGrows(done, init);
      DottedSnoc(done + init, rest[|rest| - 1]);
      assert done + rest == (done + init) + [rest[|rest| - 1]];
    }
  }

  lemma DottedEmptyOnlyAtRoot(done: seq<Label>)
    requires forall l | l in done :: l != []
    ensures Dotted(done) == [] <==> done == []
  {
    if done != [] {
      assert done[|done| - 1] in done;
    }
  }

  lemma PrependNothing(done: seq<Label>, rest: Option<seq<Label>>)
    ensures Prepend([], rest) == rest
    ensures Prepend(done, Some([])) == Some(done)
  {
    assert rest.Some? ==> [] + rest.value == rest.value;
    assert done + [] == done;
  }

  lemma PrependAssociative(a: seq<Label>, b: seq<Label>, rest: Option<seq<Label>>)
    ensures Prepend(a, Prepend(b, rest)) == Prepend(a + b, rest)
  {
    assert rest.Some? ==> a + (b + rest.value) == (a + b) + rest.value;
  }

  /** Labels that are already too long make the whole name too long. */
  lemma TooLong(msg: seq<byte>, offset: nat, done: seq<Label>, rest: Option<seq<Label>>)
    requires Labels(msg, From(msg, offset), MAX_JUMPS) == Prepend(done, rest) && |Dotted(done)| > MAX_NAME
    ensures Decoded(msg, offset) == None
  {
    if rest.Some? {
      DottedGrows(done, rest.value);
    }
  }

  /** The labels passed so far and those still to be read make up the name. */
  ghost predicate SoFar(msg: seq<byte>, offset: nat, done: seq<Label>, p: nat, jumps: nat) {
    && Labels(msg, From(msg, offset), MAX_JUMPS) == Prepend(done, Labels(msg, From(msg, p), jumps))
    && forall l | l in done :: l != []
  }

  /** A pointer without its second byte, to outside the message or one too many; a reserved label
      type; a label cut short; no more bytes. */
  predicate Malformed(msg: seq<byte>, p: nat, jumps: nat) {
    if p >= |msg| then true
    else if msg[p] >= 192 then
      p + 1 >= |msg| || jumps == 0 || 256 * (msg[p] as int - 192) + msg[p + 1] as int >= |msg|
    else msg[p] >= 64 || p + 1 + (msg[p] as int) > |msg|
  }

  lemma MalformedFails(msg: seq<byte>, offset: nat, done: seq<Label>, p: nat, jumps: nat)
    requires SoFar(msg, offset, done, p, jumps) && Malformed(msg, p, jumps)
    ensures Decoded(msg, offset) == None
  {
  }

  lemma PointerTurn(msg: seq<byte>, offset: nat, done: seq<Label>, p: nat, target: nat, jumps: nat) returns (left: nat)
    requires p + 1 < |msg| && msg[p] >= 192 && target == 256 * (msg[p] as int - 192) + msg[p + 1] as int
    requires SoFar(msg, offset, done, p, jumps) && target < |msg| && jumps > 0
    ensures left == jumps - 1 && SoFar(msg, offset, done, target, left)
  {
    left := jumps - 1;
    var s := From(msg, p);
    assert Target(s) == target;
    assert Labels(msg, s, jumps) == Labels(msg, msg[target..], left);
  }

  function Lengthened(name: seq<byte>, part: Label): seq<byte> {
    if |name| == 0 then part else name + [DOT] + part
  }

  /** What the loop's picture of the name becomes when it passes a label. */
  lemma LabelTurn(msg: seq<byte>, offset: nat, done: seq<Label>, p: nat, next: nat, jumps: nat, part: Label)
      returns (more: seq<Label>)
    requires p < next <= |msg| && 0 < msg[p] < 64 && next == p + 1 + msg[p] as int
    requires part == msg[p + 1..next]
    requires SoFar(msg, offset, done, p, jumps)
    ensures SoFar(msg, offset, more, next, jumps)
    ensures Dotted(more) == Lengthened(Dotted(done), part)
    ensures Own(From(msg, p)) == next - p + Own(From(msg, next))
  {
    more := done + [part];
    var s := From(msg, p);
    assert s[1..next - p] == part && s[next - p..] == From(msg, next);
    PrependAssociative(done, [part], Labels(msg, From(msg, next), jumps));
    DottedSnoc(done, part);
    DottedEmptyOnlyAtRoot(done);
  }

  method DecodeDnsName(msg: seq<byte>, offset: nat) returns (r: Option<Name>)
    ensures r == Decoded(msg, offset)
  {
    var name: seq<byte>, consumed: nat, pos: nat, jumps: nat, followed := [], 0, offset, 0, false;
    ghost var done: seq<Label>, left := [], MAX_JUMPS;
    PrependNothing(done, Labels(msg, From(msg, offset), MAX_JUMPS));
    while pos < |msg|
      invariant jumps + left == MAX_JUMPS && name == Dotted(done) && |name| <= MAX_NAME
      invariant SoFar(msg, offset, done, pos, left)
      invariant if followed then consumed == Own(From(msg, offset))
                else offset <= pos && pos - offset + Own(From(msg, pos)) == Own(From(msg, offset))
      decreases left, |msg| - pos
    {
      var len := msg[pos] as int;
      if len >= 192 {
        var target;
        target, left := FollowPointer(msg, offset, done, pos, jumps, left);
        if target.None? { return None; }
        if !followed { consumed := pos + 2 - offset; }
        followed := true;
        jumps := jumps + 1;
        pos := target.value;
      } else if len == 0 {
        if !followed { consumed := pos + 1 - offset; }
        return FinishedName(msg, offset, done, pos, left, name, consumed);
      } else {
        var longer, next;
        longer, next, done := TakeLabel(msg, offset, done, pos, left, name);
        if longer.None? { return None; }
        name, pos := longer.value, next;
      }
    }
    MalformedFails(msg, offset, done, pos, left);
    return None;
  }

  /** The pointer branch: where to go on, unless it is cut short, leads outside or is one too many. */
  method FollowPointer(msg: seq<byte>, offset: nat, ghost done: seq<Label>, pos: nat, jumps: nat, ghost left: nat)
      returns (target: Option<nat>, ghost after: nat)
    requires pos < |msg| && msg[pos] >= 192 && jumps + left == MAX_JUMPS
    requires SoFar(msg, offset, done, pos, left)
    ensures target.None? ==> Decoded(msg, offset) == None
    ensures target.Some? ==> after == left - 1 && Own(From(msg, pos)) == 2 && SoFar(msg, offset, done, target.value, after)
  {
    after := left;
    if pos + 1 >= |msg| {
      MalformedFails(msg, offset, done, pos, left);
      return None, after;
    }
    var to := 256 * (msg[pos] as int - 192) + msg[pos + 1] as int;
    if to >= |msg| || jumps + 1 > MAX_JUMPS {
      MalformedFails(msg, offset, done, pos, left);
      return None, after;
    }
    after := PointerTurn(msg, offset, done, pos, to, left);
    return Some(to), after;
  }

  /** The label branch: the text with one more label, unless the label type is reserved, the label is
      cut short or the text becomes too long. */
  method TakeLabel(msg: seq<byte>, offset: nat, ghost done: seq<Label>, pos: nat, ghost left: nat, name: seq<byte>)
      returns (longer: Option<seq<byte>>, next: nat, ghost more: seq<Label>)
    requires pos < |msg| && 0 < msg[pos] < 192 && SoFar(msg, offset, done, pos, left) && name == Dotted(done)
    ensures longer.None? ==> Decoded(msg, offset) == None
    ensures longer.Some? ==>
            && pos < next <= |msg| && Own(From(msg, pos)) == next - pos + Own(From(msg, next))
            && SoFar(msg, offset, more, next, left) && longer.value == Dotted(more) && |longer.value| <= MAX_NAME
  {
    more := done;
    next := pos + 1 + msg[pos] as int;
    if msg[pos] >= 64 || next > |msg| {
      MalformedFails(msg, offset, done, pos, left);
      return None, next, more;
    }
    var part := msg[pos + 1..next];
    more := LabelTurn(msg, offset, done, pos, next, left, part);
    var text := Lengthened(name, part);
    if |text| > MAX_NAME {
      TooLong(msg, offset, more, Labels(msg, From(msg, next), left));
      return None, next, more;
    }
    return Some(text), next, more;
  }

  /** At the terminator the collected text is the name, or "." if it is empty. */
  function FinishedName(msg: seq<byte>, offset: nat, ghost done: seq<Label>, p: nat, ghost jumps: nat,
                        name: seq<byte>, consumed: nat): (r: Option<Name>)
    requires p < |msg| && msg[p] == 0 && SoFar(msg, offset, done, p, jumps)
    requires name == Dotted(done) && |name| <= MAX_NAME && consumed == Own(From(msg, offset))
    ensures r == Decoded(msg, offset)
  {
    DottedEmptyOnlyAtRoot(done);
    PrependNothing(done, None);
    Some(Name(if |name| == 0 then [DOT] else name, consumed))
  }
}

/** The decoder accepts exactly the names that are laid out in the message, and returns them. */
module DnsTheorems {
  import opened Serial
  import opened Dissection
  import opened DnsName

  predicate LabelFits(l: Label) {
    1 <= |l| < 64
  }

  function EncodeLabels(labels: seq<Label>): seq<byte>
    requires forall l | l in labels :: LabelFits(l)
  {
    if labels == [] then []
    else
      assert LabelFits(labels[0]);
      [|labels[0]|] + labels[0] + EncodeLabels(labels[1..])
  }

  /** A stretch of labels at a place in the message. */
  datatype Part = Part(at: nat, labels: seq<Label>)

  ghost predicate Stands(msg: seq<byte>, part: Part) {
    (forall l | l in part.labels :: LabelFits(l)) && EncodeLabels(part.labels) <= From(msg, part.at)
  }

  /** What comes behind the labels. */
  ghost function Behind(msg: seq<byte>, part: Part): seq<byte>
    requires Stands(msg, part)
  {
    From(msg, part.at)[|EncodeLabels(part.labels)|..]
  }

  /** The two bytes of a compression pointer. */
  predicate PointsTo(s: seq<byte>, to: nat) {
    |s| >= 2 && s[0] >= 192 && Target(s) == to
  }

  /** The labels are followed by a pointer to another part of the message. */
  ghost predicate LeadsTo(msg: seq<byte>, part: Part, next: Part) {
    Stands(msg, part) && next.at < |msg| && PointsTo(Behind(msg, part), next.at)
  }

  /** The labels are followed by a terminator. */
  ghost predicate Terminates(msg: seq<byte>, part: Part) {
    Stands(msg, part) && Behind(msg, part) != [] && Behind(msg, part)[0] == 0
  }

  /** Stretches of labels, each ending in a pointer to the next, the last in a terminator. */
  ghost predicate LaidOut(msg: seq<byte>, parts: seq<Part>) {
    && parts != [] && Stands(msg, parts[0])
    && (forall i | 0 <= i < |parts| - 1 :: LeadsTo(msg, parts[i], parts[i + 1]))
    && Terminates(msg, parts[|parts| - 1])
  }

  /** Every place below 16384 can be pointed to. */
  function Pointer(to: nat): (p: seq<byte>)
    requires to < 16384
    ensures PointsTo(p, to)
  {
    [192 + to / 256, to % 256]
  }

  function AllLabels(parts: seq<Part>): seq<Label> {
    if parts == [] then [] else parts[0].labels + AllLabels(parts[1..])
  }

  lemma ReadLabel(msg: seq<byte>, l: Label, rest: seq<byte>, jumps: nat)
    requires LabelFits(l)
    ensures Labels(msg, [|l|] + l + rest, jumps) == Prepend([l], Labels(msg, rest, jumps))
    ensures Own([|l|] + l + rest) == 1 + |l| + Own(rest)
  {
    var s := [|l|] + l + rest;
    assert s[1..1 + |l|] == l && s[1 + |l|..] == rest;
  }

  lemma EncodeFirst(labels: seq<Label>, rest: seq<byte>)
    requires labels != [] && forall l | l in labels :: LabelFits(l)
    ensures forall l | l in labels[1..] :: LabelFits(l)
    ensures |EncodeLabels(labels)| == 1 + |labels[0]| + |EncodeLabels(labels[1..])|
    ensures EncodeLabels(labels) + rest == [|labels[0]|] + labels[0] + (EncodeLabels(labels[1..]) + rest)
  {
    var l, more := labels[0], labels[1..];
    assert l in labels && forall x | x in more :: x in labels;
    Regroup([|l|] + l, EncodeLabels(more), rest);
  }

  lemma Regroup(a: seq<byte>, b: seq<byte>, c: seq<byte>)
    ensures (a + b) + c == a + (b + c)
  {
  }

  /** Reading through a stretch of labels. */
  lemma {:induction false} ReadStretch(msg: seq<byte>, labels: seq<Label>, rest: seq<byte>, jumps: nat)
    requires forall l | l in labels :: LabelFits(l)
    ensures Labels(msg, EncodeLabels(labels) + rest, jumps) == Prepend(labels, Labels(msg, rest, jumps))
    ensures Own(EncodeLabels(labels) + rest) == |EncodeLabels(labels)| + Own(rest)
    decreases |labels|
  {
    if labels == [] {
      PrependNothing([], Labels(msg, rest, jumps));
      assert [] + rest == rest;
    } else {
      var l, more := labels[0], labels[1..];
      assert l in labels && LabelFits(l) && forall x | x in more :: x in labels;
      var inner := EncodeLabels(more) + rest;
      EncodeFirst(labels, rest);
      assert [l] + more == labels;
      ReadLabel(msg, l, inner, jumps);
      ReadStretch(msg, more, rest, jumps);
      PrependAssociative([l], more, Labels(msg, rest, jumps));
    }
  }

  lemma Split(msg: seq<byte>, part: Part)
    requires Stands(msg, part)
    ensures From(msg, part.at) == EncodeLabels(part.labels) + Behind(msg, part)
  {
  }

  /** A stretch that ends in a terminator. */
  lemma LastStretchIsRead(msg: seq<byte>, part: Part, jumps: nat)
    requires Terminates(msg, part)
    ensures Labels(msg, From(msg, part.at), jumps) == Some(part.labels)
    ensures Own(From(msg, part.at)) == |EncodeLabels(part.labels)| + 1
  {
    Split(msg, part);
    ReadStretch(msg, part.labels, Behind(msg, part), jumps);
    PrependNothing(part.labels, None);
  }

  /** A stretch that ends in a pointer to the next. */
  lemma StretchIsRead(msg: seq<byte>, part: Part, next: Part, jumps: nat)
    requires LeadsTo(msg, part, next) && jumps > 0
    ensures Labels(msg, From(msg, part.at), jumps) == Prepend(part.labels, Labels(msg, From(msg, next.at), jumps - 1))
    ensures Own(From(msg, part.at)) == |EncodeLabels(part.labels)| + 2
  {
    Split(msg, part);
    ReadStretch(msg, part.labels, Behind(msg, part), jumps);
    ReadPointer(msg, Behind(msg, part), next.at, jumps);
  }

  lemma LaidOutBehind(msg: seq<byte>, parts: seq<Part>)
    requires LaidOut(msg, parts) && |parts| > 1
    ensures LaidOut(msg, parts[1..]) && LeadsTo(msg, parts[0], parts[1])
  {
    var rest := parts[1..];
    forall i | 0 <= i < |rest| - 1
      ensures LeadsTo(msg, rest[i], rest[i + 1])
    {
      assert LeadsTo(msg, parts[i + 1], parts[i + 2]);
    }
    assert |rest| > 1 ==> LeadsTo(msg, rest[0], rest[1]);
    assert rest[|rest| - 1] == parts[|parts| - 1];
  }

  lemma AllLabelsFirst(parts: seq<Part>)
    requires parts != []
    ensures AllLabels(parts) == parts[0].labels + AllLabels(parts[1..])
    ensures |parts| == 1 ==> AllLabels(parts) == parts[0].labels
  {
  }

  /** The name at the first part is all the labels. */
  ghost predicate Reads(msg: seq<byte>, parts: seq<Part>, jumps: nat)
    requires parts != []
  {
    Labels(msg, From(msg, parts[0].at), jumps) == Some(AllLabels(parts))
  }

  /** A layout is read back if what its first pointer leads to is. */
  lemma MoreIsRead(msg: seq<byte>, parts: seq<Part>, rest: seq<Part>, jumps: nat)
    requires |parts| > 1 && rest == parts[1..] && LeadsTo(msg, parts[0], parts[1]) && jumps > 0
    requires Reads(msg, rest, jumps - 1)
    ensures Reads(msg, parts, jumps)
  {
    StretchIsRead(msg, parts[0], parts[1], jumps);
    AllLabelsFirst(parts);
    Joined(Labels(msg, From(msg, parts[0].at), jumps), parts[0].labels, Labels(msg, From(msg, rest[0].at), jumps - 1),
           AllLabels(rest), AllLabels(parts));
  }

  lemma LastReads(msg: seq<byte>, parts: seq<Part>, jumps: nat)
    requires |parts| == 1 && Terminates(msg, parts[0])
    ensures Reads(msg, parts, jumps)
  {
    LastStretchIsRead(msg, parts[0], jumps);
    AllLabelsFirst(parts);
  }

  lemma FirstReads(msg: seq<byte>, parts: seq<Part>, jumps: nat)
    requires |parts| > 1 && LeadsTo(msg, parts[0], parts[1]) && jumps > 0 && Reads(msg, parts[1..], jumps - 1)
    ensures Reads(msg, parts, jumps)
  {
    MoreIsRead(msg, parts, parts[1..], jumps);
  }

  lemma {:induction false} LayoutReads(msg: seq<byte>, parts: seq<Part>, jumps: nat)
    requires LaidOut(msg, parts) && |parts| - 1 <= jumps
    ensures Reads(msg, parts, jumps)
    decreases |parts|
  {
    if |parts| == 1 {
      LastReads(msg, parts, jumps);
    } else {
      LaidOutBehind(msg, parts);
      LayoutReads(msg, parts[1..], jumps - 1);
      FirstReads(msg, parts, jumps);
    }
  }

  /** Everything laid out through at most `jumps` pointers is read back, and takes its own bytes. */
  lemma LaidOutIsRead(msg: seq<byte>, parts: seq<Part>, jumps: nat)
    requires LaidOut(msg, parts) && |parts| - 1 <= jumps
    ensures Labels(msg, From(msg, parts[0].at), jumps) == Some(AllLabels(parts))
    ensures Own(From(msg, parts[0].at)) == |EncodeLabels(parts[0].labels)| + if |parts| == 1 then 1 else 2
  {
    LayoutReads(msg, parts, jumps);
    if |parts| == 1 {
      LastStretchIsRead(msg, parts[0], jumps);
    } else {
      LaidOutBehind(msg, parts);
      StretchIsRead(msg, parts[0], parts[1], jumps);
    }
  }

  lemma Joined(whole: Option<seq<Label>>, part: seq<Label>, tail: Option<seq<Label>>, rest: seq<Label>, all: seq<Label>)
    requires whole == Prepend(part, tail) && tail == Some(rest) && all == part + rest
    ensures whole == Some(all)
  {
  }

  lemma ReadPointer(msg: seq<byte>, s: seq<byte>, to: nat, jumps: nat)
    requires PointsTo(s, to) && to < |msg| && jumps > 0
    ensures Labels(msg, s, jumps) == Labels(msg, From(msg, to), jumps - 1) && Own(s) == 2
  {
  }

  lemma FromParts(msg: seq<byte>, p: nat)
    requires p <= |msg|
    ensures |From(msg, p)| == |msg| - p
    ensures p < |msg| ==> From(msg, p)[0] == msg[p]
    ensures forall n: nat | p + n <= |msg| :: From(msg, p)[n..] == From(msg, p + n)
  {
  }

  lemma ReadStarts(msg: seq<byte>, p: nat, jumps: nat)
    requires Labels(msg, From(msg, p), jumps).Some?
    ensures p < |msg| && (msg[p] >= 192 || msg[p] < 64)
  {
  }

  lemma ReadAtPointer(msg: seq<byte>, p: nat, jumps: nat)
    requires p < |msg| && msg[p] >= 192 && Labels(msg, From(msg, p), jumps).Some?
    ensures p + 2 <= |msg| && Target(From(msg, p)) < |msg| && jumps > 0
    ensures Labels(msg, From(msg, p), jumps) == Labels(msg, From(msg, Target(From(msg, p))), jumps - 1)
  {
  }

  lemma ReadAtLabel(msg: seq<byte>, p: nat, next: nat, jumps: nat)
    requires p < |msg| && 0 < msg[p] < 64 && next == p + 1 + msg[p] && Labels(msg, From(msg, p), jumps).Some?
    ensures next <= |msg|
    ensures Labels(msg, From(msg, p), jumps) == Prepend([msg[p + 1..next]], Labels(msg, From(msg, next), jumps))
  {
    var s := From(msg, p);
    assert next <= |msg|;
    FromParts(msg, p);
    assert s[1..1 + s[0]] == msg[p + 1..next];
  }

  /** The parts tell how the name at `p` is laid out. */
  ghost predicate Tells(msg: seq<byte>, p: nat, jumps: nat, parts: seq<Part>) {
    && LaidOut(msg, parts) && parts[0].at == p && |parts| - 1 <= jumps
    && Labels(msg, From(msg, p), jumps) == Some(AllLabels(parts))
  }

  lemma PointerTold(msg: seq<byte>, p: nat, to: nat, jumps: nat, rest: seq<Part>) returns (parts: seq<Part>)
    requires to < |msg| && PointsTo(From(msg, p), to) && jumps > 0
    requires Labels(msg, From(msg, p), jumps) == Labels(msg, From(msg, to), jumps - 1)
    requires Tells(msg, to, jumps - 1, rest)
    ensures Tells(msg, p, jumps, parts)
  {
    parts := PointTo(msg, p, to, rest);
  }

  lemma LabelTold(msg: seq<byte>, p: nat, next: nat, l: Label, jumps: nat, rest: seq<Part>) returns (parts: seq<Part>)
    requires p < next <= |msg| && LabelFits(l) && msg[p] == |l| && l == msg[p + 1..next]
    requires Labels(msg, From(msg, p), jumps) == Prepend([l], Labels(msg, From(msg, next), jumps))
    requires Tells(msg, next, jumps, rest)
    ensures Tells(msg, p, jumps, parts)
  {
    parts := Extend(msg, p, next, l, rest);
    Joined(Labels(msg, From(msg, p), jumps), [l], Labels(msg, From(msg, next), jumps), AllLabels(rest), AllLabels(parts));
  }

  /** Whatever is read was laid out that way. */
  lemma {:induction false} ReadIsLaidOut(msg: seq<byte>, p: nat, jumps: nat) returns (parts: seq<Part>)
    requires Labels(msg, From(msg, p), jumps).Some?
    ensures Tells(msg, p, jumps, parts)
    decreases jumps, |msg| - p
  {
    ReadStarts(msg, p, jumps);
    if msg[p] >= 192 {
      ReadAtPointer(msg, p, jumps);
      var to := Target(From(msg, p));
      var rest := ReadIsLaidOut(msg, to, jumps - 1);
      parts := PointerTold(msg, p, to, jumps, rest);
    } else if msg[p] == 0 {
      parts := Terminate(msg, p);
    } else {
      var next := p + 1 + msg[p];
      ReadAtLabel(msg, p, next, jumps);
      var rest := ReadIsLaidOut(msg, next, jumps);
      parts := LabelTold(msg, p, next, msg[p + 1..next], jumps, rest);
    }
  }

  /** A terminator alone is a layout. */
  lemma Terminate(msg: seq<byte>, p: nat) returns (parts: seq<Part>)
    requires p < |msg| && msg[p] == 0
    ensures LaidOut(msg, parts) && |parts| == 1 && parts[0].at == p && AllLabels(parts) == []
  {
    parts := [Part(p, [])];
    assert AllLabels(parts) == [] + AllLabels([]);
  }

  /** A part in front of a layout. */
  lemma PutInFront(msg: seq<byte>, part: Part, rest: seq<Part>)
    requires LaidOut(msg, rest) && LeadsTo(msg, part, rest[0])
    ensures LaidOut(msg, [part] + rest) && AllLabels([part] + rest) == part.labels + AllLabels(rest)
  {
    var parts := [part] + rest;
    assert parts[1..] == rest;
    forall i | 0 <= i < |parts| - 1
      ensures LeadsTo(msg, parts[i], parts[i + 1])
    {
      if i > 0 {
        assert LeadsTo(msg, rest[i - 1], rest[i]);
      }
    }
  }

  /** A pointer to a layout is a layout. */
  lemma PointTo(msg: seq<byte>, p: nat, to: nat, rest: seq<Part>) returns (parts: seq<Part>)
    requires to < |msg| && PointsTo(From(msg, p), to)
    requires LaidOut(msg, rest) && rest[0].at == to
    ensures LaidOut(msg, parts) && |parts| == |rest| + 1 && parts[0].at == p && AllLabels(parts) == AllLabels(rest)
  {
    var part := Part(p, []);
    assert Behind(msg, part) == From(msg, p);
    parts := [part] + rest;
    PutInFront(msg, part, rest);
    assert [] + AllLabels(rest) == AllLabels(rest);
  }

  /** The same stretch with a label before it. */
  lemma StandsLonger(msg: seq<byte>, p: nat, next: nat, l: Label, part: Part)
    requires p < next <= |msg| && LabelFits(l) && msg[p] == |l| && l == msg[p + 1..next]
    requires Stands(msg, part) && part.at == next
    ensures Stands(msg, Part(p, [l] + part.labels)) && Behind(msg, Part(p, [l] + part.labels)) == Behind(msg, part)
  {
    var longer := Part(p, [l] + part.labels);
    assert longer.labels[0] == l && longer.labels[1..] == part.labels;
    assert EncodeLabels(longer.labels) == ([|l|] + l) + EncodeLabels(part.labels);
    assert From(msg, p) == ([|l|] + l) + From(msg, next);
  }

  /** A label in front of a layout is a layout. */
  lemma Extend(msg: seq<byte>, p: nat, next: nat, l: Label, rest: seq<Part>) returns (parts: seq<Part>)
    requires p < next <= |msg| && LabelFits(l) && msg[p] == |l| && l == msg[p + 1..next]
    requires LaidOut(msg, rest) && rest[0].at == next
    ensures LaidOut(msg, parts) && parts[0].at == p && |parts| == |rest|
    ensures AllLabels(parts) == [l] + AllLabels(rest)
  {
    var longer := Part(p, [l] + rest[0].labels);
    parts := [longer] + rest[1..];
    StandsLonger(msg, p, next, l, rest[0]);
    AllLabelsOneMore(p, l, rest);
    if |rest| > 1 {
      LaidOutBehind(msg, rest);
      assert LeadsTo(msg, longer, rest[1]);
      PutInFront(msg, longer, rest[1..]);
    }
  }

  lemma AllLabelsOneMore(p: nat, l: Label, rest: seq<Part>)
    requires rest != []
    ensures AllLabels([Part(p, [l] + rest[0].labels)] + rest[1..]) == [l] + AllLabels(rest)
  {
    var parts := [Part(p, [l] + rest[0].labels)] + rest[1..];
    assert parts[1..] == rest[1..];
    assert [l] + rest[0].labels + AllLabels(rest[1..]) == [l] + (rest[0].labels + AllLabels(rest[1..]));
  }

  ghost predicate Names(msg: seq<byte>, offset: nat, parts: seq<Part>, text: seq<byte>) {
    && LaidOut(msg, parts) && parts[0].at == offset && |parts| - 1 <= 8
    && |Dotted(AllLabels(parts))| <= 253
    && text == if AllLabels(parts) == [] then [46] else Dotted(AllLabels(parts))
  }

  /** The main result, both ways and for any message: the decoder returns a text if and only if
      labels with that dotted form are laid out from `offset` through at most 8 pointers, with at
      most 253 characters. */
  lemma DecodesIffLaidOut(msg: seq<byte>, offset: nat, text: seq<byte>)
    ensures Decoded(msg, offset).Some? && Decoded(msg, offset).value.text == text
            <==> exists parts :: Names(msg, offset, parts, text)
  {
    if Decoded(msg, offset).Some? && Decoded(msg, offset).value.text == text {
      var parts := ReadIsLaidOut(msg, offset, MAX_JUMPS);
      assert Names(msg, offset, parts, text);
    }
    if parts :| Names(msg, offset, parts, text) {
      LaidOutIsRead(msg, parts, MAX_JUMPS);
    }
  }

  /** A name takes exactly its own bytes: its labels and the terminator, or its labels and the first
      pointer. */
  lemma ConsumesOwnBytes(msg: seq<byte>, offset: nat, parts: seq<Part>, text: seq<byte>)
    requires Names(msg, offset, parts, text)
    ensures Decoded(msg, offset) ==
            Some(Name(text, |EncodeLabels(parts[0].labels)| + if |parts| == 1 then 1 else 2))
  {
    LaidOutIsRead(msg, parts, MAX_JUMPS);
  }

  // -------------------------------------------------------- where pointers lead

  /** A pointer to a name laid out anywhere in the message, before it or behind it, is that name. */
  lemma PointerLeadsAnywhere(msg: seq<byte>, offset: nat, to: nat, parts: seq<Part>, text: seq<byte>)
    requires to < |msg| && PointsTo(From(msg, offset), to)
    requires Names(msg, to, parts, text) && |parts| <= 8
    ensures Decoded(msg, offset) == Some(Name(text, 2))
  {
    LaidOutIsRead(msg, parts, MAX_JUMPS - 1);
    ReadPointer(msg, From(msg, offset), to, MAX_JUMPS);
  }

  /** So names need not be earlier ones: a pointer that leads forward, over any bytes, is followed. */
  lemma ForwardPointerFollowed(gap: seq<byte>)
    requires 2 + |gap| < 16384
    ensures Decoded(Pointer(2 + |gap|) + gap + [0], 0) == Some(Name([46], 2))
  {
    var to := 2 + |gap|;
    var msg := Pointer(to) + gap + [0];
    assert From(msg, to) == [0];
    var parts := Terminate(msg, to);
    assert From(msg, 0) == msg;
    PointerLeadsAnywhere(msg, 0, to, parts, [DOT]);
  }

  lemma {:induction false} SelfPointerUnread(msg: seq<byte>, p: nat, jumps: nat)
    requires p < |msg| && PointsTo(From(msg, p), p)
    ensures Labels(msg, From(msg, p), jumps) == None
  {
    if jumps > 0 {
      ReadPointer(msg, From(msg, p), p, jumps);
      SelfPointerUnread(msg, p, jumps - 1);
    }
  }

  /** A pointer to itself is refused, by the limit on jumps alone. */
  lemma SelfPointerRefused(msg: seq<byte>, offset: nat)
    requires offset < |msg| && PointsTo(From(msg, offset), offset)
    ensures Decoded(msg, offset) == None
  {
    SelfPointerUnread(msg, offset, MAX_JUMPS);
  }
}
