// What path a quoted import means (native/modules.c). Paths are relative and use
// '/'; a module's name in a bundle is the normalised path.
module ModulePaths {

  const MAX_SEGMENTS := 64

  // Where the first '/' is; |path| if there is none.
  function Cut(path: string): (j: nat)
    ensures j <= |path| && (j < |path| ==> path[j] == '/')
    ensures forall k :: 0 <= k < j ==> path[k] != '/'
  {
    if path == "" || path[0] == '/' then 0 else 1 + Cut(path[1..])
  }

  // The first segment, and what follows the '/' after it.
  function Head(path: string): (seg: string)
    ensures '/' !in seg
  {
    path[..Cut(path)]
  }

  function Rest(path: string): (r: string)
    ensures path != "" ==> |r| < |path|
    ensures path != "" ==> |Head(path)| + |r| <= |path|
    ensures r != "" ==> |Head(path)| + 1 + |r| == |path|
  {
    if Cut(path) < |path| then path[Cut(path) + 1..] else ""
  }

  // A path is its segments. A '/' at the end adds no empty one.
  function Segments(path: string): seq<string>
    decreases |path|
  {
    if path == "" then [] else [Head(path)] + Segments(Rest(path))
  }

  // What one more segment does to those kept so far.
  function Step(kept: seq<string>, seg: string): (r: seq<string>) {
    if seg == "" || seg == "." then kept
    else if seg == ".." then if kept != [] && kept[|kept| - 1] != ".." then kept[..|kept| - 1] else kept + [seg]
    else kept + [seg]
  }

  // The segments kept once the path, or the room for segments, is at its end.
  function Kept(path: string, kept: seq<string>): seq<string>
    decreases |path|
  {
    if path == "" || |kept| >= MAX_SEGMENTS then kept else Kept(Rest(path), Step(kept, Head(path)))
  }

  // The segments from i on with '/' between them.
  function Joined(segs: seq<string>, i: nat): string
    requires i <= |segs|
    decreases |segs| - i
  {
    if i == |segs| then ""
    else segs[i] + if i + 1 == |segs| then "" else "/" + Joined(segs, i + 1)
  }

  function Normalized(path: string): string {
    Joined(Kept(path, []), 0)
  }

  // A first segment that has been found is the first segment.
  lemma CutIs(path: string, j: nat)
    requires j <= |path| && (j < |path| ==> path[j] == '/') && '/' !in path[..j]
    ensures Cut(path) == j && Head(path) == path[..j]
    ensures Rest(path) == if j < |path| then path[j + 1..] else ""
  {
    hide Cut;
    assert forall k :: 0 <= k < j ==> path[..j][k] != '/';
    assert forall k :: 0 <= k < j ==> path[k] != '/';
  }

  lemma SliceAgain(path: string, p: nat, k: nat)
    requires p <= |path| && k <= |path| - p
    ensures path[p..][k..] == path[p + k..] && path[p..][..k] == path[p..p + k]
  {
  }

  // One round of the splitting loop: the segment that ends at p.
  method KeepSegment(segments: seq<string>, seg: string) returns (r: seq<string>)
    ensures r == Step(segments, seg)
  {
    r := segments;
    if seg == "" || seg == "." {
      // dropped
    } else if seg == ".." {
      if |r| > 0 && r[|r| - 1] != ".." {
        r := r[..|r| - 1];
      } else {
        r := r + [seg];
      }
    } else {
      r := r + [seg];
    }
  }

  method EndOfSegment(path: string, start: nat) returns (p: nat)
    requires start <= |path|
    ensures start <= p <= |path| && path[start..p] == Head(path[start..])
    ensures Rest(path[start..]) == path[if p < |path| then p + 1 else p..]
  {
    hide Cut, Head, Rest;
    p := start;
    while p < |path| && path[p] != '/'
      invariant start <= p <= |path| && '/' !in path[start..p]
    {
      p := p + 1;
    }
    SliceAgain(path, start, p - start);
    CutIs(path[start..], p - start);
    if p < |path| {
      SliceAgain(path, start, p - start + 1);
    }
  }

  method Join(segments: seq<string>) returns (r: string)
    ensures r == Joined(segments, 0)
  {
    r := "";
    for i := 0 to |segments|
      invariant Joined(segments, 0) == r + (if 0 < i < |segments| then "/" else "") + Joined(segments, i)
    {
      if i > 0 {
        r := r + "/";
      }
      r := r + segments[i];
    }
  }

  method NormalizeModulePath(path: string) returns (r: string)
    ensures r == Normalized(path)
  {
    hide Step, Head, Rest, Joined;
    var segments: seq<string> := [];
    var p := 0;
    assert path[0..] == path;
    while p < |path| && |segments| < MAX_SEGMENTS
      invariant 0 <= p <= |path| && Kept(path[p..], segments) == Kept(path, [])
      decreases |path| - p
    {
      var start := p;
      p := EndOfSegment(path, start);
      segments := KeepSegment(segments, path[start..p]);
      if p < |path| {
        p := p + 1;
      }
    }
    r := Join(segments);
  }

  // ----- what a path means -----

  // From where one starts: so many directories up, then down by names.
  datatype Place = Place(up: nat, names: seq<string>)

  const HERE := Place(0, [])

  function Walk(at: Place, seg: string): Place {
    if seg == "" || seg == "." then at
    else if seg == ".." then if at.names != [] then at.(names := at.names[..|at.names| - 1]) else at.(up := at.up + 1)
    else at.(names := at.names + [seg])
  }

  // Where a path leads.
  function Lead(path: string, at: Place): Place
    decreases |path|
  {
    if path == "" then at else Lead(Rest(path), Walk(at, Head(path)))
  }

  // The segments that lead to a place.
  function Spelled(at: Place): (r: seq<string>)
    ensures |r| == at.up + |at.names|
    ensures forall i :: 0 <= i < |r| ==> r[i] == if i < at.up then ".." else at.names[i - at.up]
  {
    seq(at.up, _ => "..") + at.names
  }

  ghost predicate IsName(seg: string) {
    seg != "" && seg != "." && seg != ".." && '/' !in seg
  }

  ghost predicate Proper(at: Place) {
    forall i :: 0 <= i < |at.names| ==> IsName(at.names[i])
  }

  // Segments in normal form: none that says nothing, ".." at the front only.
  ghost predicate Normal(segs: seq<string>) {
    && (forall i :: 0 <= i < |segs| ==> segs[i] != "" && segs[i] != "." && '/' !in segs[i])
    && forall i, j :: 0 <= i < j < |segs| && segs[j] == ".." ==> segs[i] == ".."
  }

  lemma SpelledIsNormal(at: Place)
    requires Proper(at)
    ensures Normal(Spelled(at))
  {
  }

  // Keeping segments is walking.
  lemma StepIsWalk(at: Place, seg: string)
    requires Proper(at) && '/' !in seg
    ensures Step(Spelled(at), seg) == Spelled(Walk(at, seg)) && Proper(Walk(at, seg))
  {
    var kept := Spelled(at);
    if seg == ".." && at.names != [] {
      assert kept[..|kept| - 1] == Spelled(Walk(at, seg));
    } else if seg == ".." {
      assert kept + [seg] == Spelled(Walk(at, seg));
    } else if seg != "" && seg != "." {
      assert kept + [seg] == Spelled(Walk(at, seg));
    }
  }

  // Where the part of a path leads that there is room to read.
  function Reached(path: string, at: Place): Place
    decreases |path|
  {
    if path == "" || |Spelled(at)| >= MAX_SEGMENTS then at else Reached(Rest(path), Walk(at, Head(path)))
  }

  lemma {:induction false} KeptIsWalk(path: string, at: Place)
    requires Proper(at)
    ensures Kept(path, Spelled(at)) == Spelled(Reached(path, at)) && Proper(Reached(path, at))
    decreases |path|
  {
    hide Head, Rest, Step, Walk, Spelled, Proper;
    if path != "" && |Spelled(at)| < MAX_SEGMENTS {
      StepIsWalk(at, Head(path));
      KeptIsWalk(Rest(path), Walk(at, Head(path)));
    }
  }

  // The most segments that are pending while there is more of the path to come.
  function Peak(path: string, at: Place): nat
    decreases |path|
  {
    if path == "" then 0
    else
      var later := Peak(Rest(path), Walk(at, Head(path)));
      if later < |Spelled(at)| then |Spelled(at)| else later
  }

  // What there is no room to read.
  function Unread(path: string, at: Place): string
    decreases |path|
  {
    if path == "" || |Spelled(at)| >= MAX_SEGMENTS then path else Unread(Rest(path), Walk(at, Head(path)))
  }

  // A path with few enough segments pending is read to its end, and no other is; the
  // way goes on from the place reached along what is not read.
  lemma {:induction false} ReadsAll(path: string, at: Place)
    ensures Unread(path, at) == "" <==> Peak(path, at) < MAX_SEGMENTS
    ensures Lead(path, at) == Lead(Unread(path, at), Reached(path, at))
    decreases |path|
  {
    hide Head, Rest, Spelled;
    if path != "" && |Spelled(at)| < MAX_SEGMENTS {
      ReadsAll(Rest(path), Walk(at, Head(path)));
    }
  }

  // Up to 64 segments in all are never too many.
  lemma {:induction false} FewAreRead(path: string, at: Place)
    requires |Segments(path)| + |Spelled(at)| <= MAX_SEGMENTS
    ensures Peak(path, at) < MAX_SEGMENTS
    decreases |path|
  {
    hide Head, Rest, Spelled;
    if path != "" {
      assert |Spelled(Walk(at, Head(path)))| <= |Spelled(at)| + 1;
      FewAreRead(Rest(path), Walk(at, Head(path)));
    }
  }

  lemma {:induction false} RoomBounds(path: string, at: Place)
    requires |Spelled(at)| <= MAX_SEGMENTS
    ensures |Spelled(Reached(path, at))| <= MAX_SEGMENTS
    decreases |path|
  {
    hide Head, Rest, Spelled;
    if path != "" && |Spelled(at)| < MAX_SEGMENTS {
      RoomBounds(Rest(path), Walk(at, Head(path)));
    }
  }

  // The text of a place reads back as its segments.
  lemma {:induction false} FirstOfJoined(segs: seq<string>, i: nat)
    requires i < |segs| && Normal(segs)
    ensures var text := Joined(segs, i); text != "" && Head(text) == segs[i] && Rest(text) == Joined(segs, i + 1)
  {
    hide Cut, Head, Rest;
    var text, seg := Joined(segs, i), segs[i];
    assert text[..|seg|] == seg;
    CutIs(text, |seg|);
    if i + 1 < |segs| {
      assert text == seg + ("/" + Joined(segs, i + 1));
      assert text[|seg| + 1..] == Joined(segs, i + 1);
    }
  }

  lemma JoinedEnd(segs: seq<string>)
    ensures Joined(segs, |segs|) == ""
  {
  }

  lemma {:induction false} SegmentsOfJoined(segs: seq<string>, i: nat)
    requires i <= |segs| && Normal(segs)
    ensures Segments(Joined(segs, i)) == segs[i..]
    decreases |segs| - i
  {
    hide Head, Rest, Joined, Normal;
    if i < |segs| {
      FirstOfJoined(segs, i);
      SegmentsOfJoined(segs, i + 1);
    } else {
      JoinedEnd(segs);
    }
  }

  lemma {:induction false} KeptOfJoined(segs: seq<string>, i: nat)
    requires i <= |segs| <= MAX_SEGMENTS && Normal(segs)
    ensures Kept(Joined(segs, i), segs[..i]) == segs
    decreases |segs| - i
  {
    hide Head, Rest, Joined;
    if i < |segs| {
      FirstOfJoined(segs, i);
      assert Step(segs[..i], segs[i]) == segs[..i + 1];
      KeptOfJoined(segs, i + 1);
    } else {
      JoinedEnd(segs);
      assert segs[..i] == segs;
    }
  }

  // The first i steps to a place.
  function Along(at: Place, i: nat): Place
    requires i <= at.up + |at.names|
  {
    if i <= at.up then Place(i, []) else Place(at.up, at.names[..i - at.up])
  }

  lemma {:induction false} LeadOfJoined(at: Place, i: nat)
    requires i <= |Spelled(at)| && Proper(at)
    ensures Lead(Joined(Spelled(at), i), Along(at, i)) == at
    decreases |Spelled(at)| - i
  {
    hide Head, Rest, Joined, Spelled;
    SpelledIsNormal(at);
    if i < |Spelled(at)| {
      FirstOfJoined(Spelled(at), i);
      assert Walk(Along(at, i), Spelled(at)[i]) == Along(at, i + 1);
      LeadOfJoined(at, i + 1);
    } else {
      JoinedEnd(Spelled(at));
      assert i > at.up ==> at.names[..i - at.up] == at.names;
    }
  }

  // What normalising keeps is the way to the place reached.
  lemma NormalizedSpells(path: string) returns (end: Place)
    ensures end == Reached(path, HERE) && Proper(end) && |Spelled(end)| <= MAX_SEGMENTS
    ensures Normalized(path) == Joined(Spelled(end), 0) && Lead(Normalized(path), HERE) == end
  {
    hide Kept, Reached, Lead, Joined;
    assert Spelled(HERE) == [];
    end := Reached(path, HERE);
    KeptIsWalk(path, HERE);
    RoomBounds(path, HERE);
    LeadOfJoined(end, 0);
  }

  // The normal form: it says nothing in vain, ".." only leads it, normalising again
  // changes nothing. For every path.
  lemma NormalizedIsNormal(path: string)
    ensures Normal(Segments(Normalized(path))) && |Segments(Normalized(path))| <= MAX_SEGMENTS
    ensures Normalized(Normalized(path)) == Normalized(path)
  {
    hide Kept, Reached, Lead, Joined;
    var end := NormalizedSpells(path);
    var segs := Spelled(end);
    SpelledIsNormal(end);
    SegmentsOfJoined(segs, 0);
    KeptOfJoined(segs, 0);
    assert segs[0..] == segs && segs[..0] == [];
  }

  // A name leads where the path leads if and only if fewer than 64 segments are ever
  // pending, or else what is left unread leads back to where one is.
  lemma LeadsThereIff(path: string)
    ensures Lead(Normalized(path), HERE) == Lead(path, HERE) <==>
      Peak(path, HERE) < MAX_SEGMENTS || Lead(Unread(path, HERE), Reached(path, HERE)) == Reached(path, HERE)
  {
    assert forall at: Place :: Lead("", at) == at;
    hide Kept, Reached, Lead, Joined, Peak, Unread;
    var _ := NormalizedSpells(path);
    ReadsAll(path, HERE);
  }

  // So of a path with fewer than 64 segments pending, of up to 64 in all for one, the
  // name leads there, and two such paths get the same name exactly when they lead to
  // the same place.
  lemma NormalizedLeadsThere(path: string)
    requires Peak(path, HERE) < MAX_SEGMENTS
    ensures Lead(Normalized(path), HERE) == Lead(path, HERE)
  {
    LeadsThereIff(path);
  }

  lemma SameNameSamePlace(a: string, b: string)
    requires Peak(a, HERE) < MAX_SEGMENTS && Peak(b, HERE) < MAX_SEGMENTS
    ensures Normalized(a) == Normalized(b) <==> Lead(a, HERE) == Lead(b, HERE)
  {
    hide Kept, Reached, Lead, Joined, Peak;
    var endA := NormalizedSpells(a);
    var endB := NormalizedSpells(b);
    NormalizedLeadsThere(a);
    NormalizedLeadsThere(b);
  }

  // Past 64 a path that never goes up is cut, exactly when it has more names than
  // there is room for.
  lemma {:induction false} DownGrows(path: string, at: Place)
    requires ".." !in Segments(path)
    ensures |Spelled(Lead(path, at))| >= |Spelled(at)|
    ensures |Spelled(Lead(path, at))| == |Spelled(at)| ==> Lead(path, at) == at
    decreases |path|
  {
    hide Head, Rest, Spelled;
    if path != "" {
      DownGrows(Rest(path), Walk(at, Head(path)));
    }
  }

  lemma {:induction false} DownReaches(path: string, at: Place)
    requires ".." !in Segments(path) && |Spelled(at)| <= MAX_SEGMENTS
    ensures |Spelled(Lead(path, at))| <= MAX_SEGMENTS ==> Reached(path, at) == Lead(path, at)
    decreases |path|
  {
    hide Head, Rest, Spelled;
    DownGrows(path, at);
    if path != "" && |Spelled(at)| < MAX_SEGMENTS {
      DownReaches(Rest(path), Walk(at, Head(path)));
    }
  }

  lemma LongPathIsCut(path: string)
    requires ".." !in Segments(path)
    ensures Lead(Normalized(path), HERE) == Lead(path, HERE) <==> |Lead(path, HERE).names| <= MAX_SEGMENTS
  {
    hide Kept, Reached, Lead, Joined;
    var end := NormalizedSpells(path);
    DownReaches(path, HERE);
    DownStays(path, HERE);
  }

  lemma {:induction false} DownStays(path: string, at: Place)
    requires ".." !in Segments(path)
    ensures Lead(path, at).up == at.up
    decreases |path|
  {
    hide Head, Rest;
    if path != "" {
      DownStays(Rest(path), Walk(at, Head(path)));
    }
  }

  // n names, each the same.
  function Deep(n: nat): (path: string)
    ensures path == "" <==> n == 0
  {
    if n == 0 then "" else "a/" + Deep(n - 1)
  }

  lemma DeepSegment(n: nat)
    requires n > 0
    ensures Head(Deep(n)) == "a" && Rest(Deep(n)) == Deep(n - 1)
  {
    CutIs(Deep(n), 1);
  }

  lemma {:induction false} DeepLeads(n: nat, at: Place)
    ensures ".." !in Segments(Deep(n)) && |Lead(Deep(n), at).names| == |at.names| + n
    decreases n
  {
    hide Deep, Head, Rest;
    if n > 0 {
      DeepSegment(n);
      DeepLeads(n - 1, Walk(at, "a"));
    }
  }

  // Of a/a/a/... with 65 names the normalised path is another module.
  lemma SixtyFiveAreCut()
    ensures Lead(Normalized(Deep(65)), HERE) != Lead(Deep(65), HERE)
  {
    hide Deep, Lead;
    var n := 65;
    DeepLeads(n, HERE);
    LongPathIsCut(Deep(n));
  }

  // ----- never longer -----

  // What the first n segments take, each with the '/' after it.
  function Width(segs: seq<string>, n: nat): nat
    requires n <= |segs|
  {
    if n == 0 then 0 else Width(segs, n - 1) + |segs[n - 1]| + 1
  }

  lemma {:induction false} WidthOfPrefix(a: seq<string>, b: seq<string>, n: nat)
    requires n <= |a| && n <= |b| && a[..n] == b[..n]
    ensures Width(a, n) == Width(b, n)
  {
    if n > 0 {
      assert a[..n - 1] == a[..n][..n - 1] && b[..n - 1] == b[..n][..n - 1];
      assert a[n - 1] == a[..n][n - 1] && b[n - 1] == b[..n][n - 1];
      WidthOfPrefix(a, b, n - 1);
    }
  }

  lemma StepWidth(kept: seq<string>, seg: string)
    ensures Width(Step(kept, seg), |Step(kept, seg)|) <= Width(kept, |kept|) + |seg| + 1
  {
    var next := Step(kept, seg);
    if next == kept + [seg] {
      WidthOfPrefix(kept, next, |kept|);
    } else if next != kept {
      WidthOfPrefix(kept, next, |kept| - 1);
    }
  }

  lemma {:induction false} KeptWidth(path: string, kept: seq<string>)
    ensures Width(Kept(path, kept), |Kept(path, kept)|) <= Width(kept, |kept|) + |path| + 1
    ensures path == "" ==> Kept(path, kept) == kept
    decreases |path|
  {
    hide Head, Rest, Step, Width;
    if path != "" && |kept| < MAX_SEGMENTS {
      StepWidth(kept, Head(path));
      KeptWidth(Rest(path), Step(kept, Head(path)));
    }
  }

  lemma {:induction false} JoinedWidth(segs: seq<string>, i: nat)
    requires i < |segs|
    ensures |Joined(segs, i)| + 1 == Width(segs, |segs|) - Width(segs, i)
    decreases |segs| - i
  {
    if i + 1 < |segs| {
      JoinedWidth(segs, i + 1);
    }
  }

  // A name is never longer than the path, so the path can be rewritten in place.
  lemma NormalizedIsNoLonger(path: string)
    ensures |Normalized(path)| <= |path|
  {
    KeptWidth(path, []);
    var kept := Kept(path, []);
    if kept != [] {
      JoinedWidth(kept, 0);
    }
  }

  // ----- a path against the module that asks -----

  const TARGET_ROOM := 1024

  // Where the last '/' before n is; n if there is none.
  function LastSlash(path: string, n: nat): (r: nat)
    requires n <= |path|
    ensures r <= n && (r < n ==> path[r] == '/')
    ensures forall k :: (if r < n then r + 1 else 0) <= k < n ==> path[k] != '/'
  {
    if n == 0 then 0
    else if path[n - 1] == '/' then n - 1
    else
      var r := LastSlash(path, n - 1);
      if r < n - 1 then r else n
  }

  function Against(current: string, path: string): string {
    var slash := LastSlash(current, |current|);
    if slash < |current| then current[..slash] + "/" + path else path
  }

  // The name that `path` means in `current`; the text is cut to the room for it.
  function Resolved(current: string, path: string): string {
    var text := Against(current, path);
    Normalized(if |text| < TARGET_ROOM then text else text[..TARGET_ROOM - 1])
  }

  method ResolveAgainstCurrent(current: string, path: string) returns (out: string)
    ensures out == Resolved(current, path)
  {
    hide Normalized;
    var slash := |current|;
    while slash > 0 && current[slash - 1] != '/'
      invariant 0 <= slash <= |current| && forall k :: slash <= k < |current| ==> current[k] != '/'
    {
      slash := slash - 1;
    }
    ghost var last := LastSlash(current, |current|);
    if slash > 0 {
      assert last == slash - 1;
      out := current[..slash - 1] + "/" + path;
    } else {
      assert last == |current|;
      out := path;
    }
    if |out| >= TARGET_ROOM {
      out := out[..TARGET_ROOM - 1];
    }
    out := NormalizeModulePath(out);
  }

  // Going along a and then b.
  lemma {:induction false} LeadOn(a: string, b: string, at: Place)
    ensures Lead(a + "/" + b, at) == Lead(b, Lead(a, at))
    decreases |a|
  {
    var text := a + "/" + b;
    var j := Cut(a);
    assert text[..j] == a[..j];
    CutIs(text, j);
    if j < |a| {
      assert text[j + 1..] == a[j + 1..] + "/" + b;
      LeadOn(a[j + 1..], b, Walk(at, Head(a)));
    } else {
      assert text[j + 1..] == b && a[..j] == a;
    }
  }

  // Where one is in a module: the directory its name is in.
  function Folder(current: string): Place {
    var slash := LastSlash(current, |current|);
    if slash < |current| then Lead(current[..slash], HERE) else HERE
  }

  // A name found for `path` leads where `path` leads from the module that asks,
  // if nothing was cut for want of room.
  lemma ResolvedLeads(current: string, path: string)
    requires |Against(current, path)| < TARGET_ROOM && Peak(Against(current, path), HERE) < MAX_SEGMENTS
    ensures Lead(Resolved(current, path), HERE) == Lead(path, Folder(current))
  {
    hide Lead, Normalized, Segments;
    NormalizedLeadsThere(Against(current, path));
    var slash := LastSlash(current, |current|);
    if slash < |current| {
      LeadOn(current[..slash], path, HERE);
    }
  }
}
