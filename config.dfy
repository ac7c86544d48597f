/**
 * The hand-written string helpers of config.go (split, trim, splitAndTrim)
 * and the CORS host list that LoadConfig derives from CORS_ALLOWED_HOSTS.
 */
module Config {
  import opened Results

  const DefaultCorsHosts: string := "*"
  const HostSeparator: string := ","

  /** The four characters trim removes: space, tab, newline, carriage return. */
  predicate IsSpace(c: char) {
    c == ' ' || c == '\t' || c == '\n' || c == '\r'
  }

  /** sep occurs in s starting at position p. */
  predicate OccursAt(s: string, sep: string, p: int) {
    0 <= p && p + |sep| <= |s| && s[p..p + |sep|] == sep
  }

  predicate Contains(s: string, sep: string) {
    exists p | 0 <= p <= |s| :: OccursAt(s, sep, p)
  }

  /** An occurrence inside the slice s[a..b] is an occurrence in s that ends by b. */
  lemma OccursInSlice(s: string, sep: string, a: nat, b: nat, q: int)
    requires a <= b <= |s|
    ensures OccursAt(s[a..b], sep, q) ==> OccursAt(s, sep, a + q) && a + q + |sep| <= b
  {
    if OccursAt(s[a..b], sep, q) {
      forall k | 0 <= k < |sep| ensures s[a + q + k] == sep[k] {
        assert s[a..b][q..q + |sep|][k] == sep[k];
      }
      assert s[a + q..a + q + |sep|] == sep;
    }
  }

  /** The leftmost occurrence of sep in s at or after position from. */
  function FirstFrom(s: string, sep: string, from: nat): (r: Option<nat>)
    ensures r.Some? ==> from <= r.value && OccursAt(s, sep, r.value)
    decreases |s| - from
  {
    if from + |sep| > |s| then None
    else if OccursAt(s, sep, from) then Some(from)
    else FirstFrom(s, sep, from + 1)
  }

  /** A position where sep does not occur is skipped. */
  lemma FirstFromSkip(s: string, sep: string, i: nat)
    requires i + |sep| <= |s| && !OccursAt(s, sep, i)
    ensures FirstFrom(s, sep, i) == FirstFrom(s, sep, i + 1)
  {
  }

  /** FirstFrom finds the leftmost occurrence, and None means there is none. */
  lemma {:induction false} FirstFromLeftmost(s: string, sep: string, from: nat)
    ensures FirstFrom(s, sep, from).Some? ==>
      forall p :: from <= p < FirstFrom(s, sep, from).value ==> !OccursAt(s, sep, p)
    ensures FirstFrom(s, sep, from).None? ==> forall p :: from <= p ==> !OccursAt(s, sep, p)
    decreases |s| - from
  {
    if from + |sep| <= |s| && !OccursAt(s, sep, from) {
      FirstFromLeftmost(s, sep, from + 1);
    }
  }

  /**
   * What split(s, sep) collects from position start on: the text up to the
   * next sep, then the parts after it; the rest of s when sep does not occur.
   */
  function PartsFrom(s: string, sep: string, start: nat): seq<string>
    requires |sep| > 0 && start <= |s|
    decreases |s| - start
  {
    match FirstFrom(s, sep, start)
    case None => [s[start..]]
    case Some(p) => [s[start..p]] + PartsFrom(s, sep, p + |sep|)
  }

  /** Where the next occurrence is at i, the part before it comes first. */
  lemma PartsFromCut(s: string, sep: string, start: nat, i: nat, after: nat)
    requires |sep| > 0 && start <= |s| && FirstFrom(s, sep, start) == Some(i) && after == i + |sep|
    ensures PartsFrom(s, sep, start) == [s[start..i]] + PartsFrom(s, sep, after)
  {
  }

  /** Where sep does not occur from start on, the rest of s is the last part. */
  lemma PartsFromLast(s: string, sep: string, start: nat)
    requires |sep| > 0 && start <= |s| && FirstFrom(s, sep, start) == None
    ensures PartsFrom(s, sep, start) == [s[start..]]
  {
  }

  /** What split(s, sep) returns. */
  function Parts(s: string, sep: string): seq<string>
    requires |sep| > 0
  {
    PartsFrom(s, sep, 0)
  }

  /** strings.Join: the parts with sep between neighbours. */
  function Join(parts: seq<string>, sep: string): string {
    if parts == [] then ""
    else if |parts| == 1 then parts[0]
    else parts[0] + sep + Join(parts[1..], sep)
  }

  lemma PartsFromNonEmpty(s: string, sep: string, start: nat)
    requires |sep| > 0 && start <= |s|
    ensures |PartsFrom(s, sep, start)| >= 1
  {
  }

  lemma PartsNonEmpty(s: string, sep: string)
    requires |sep| > 0
    ensures |Parts(s, sep)| >= 1
  {
  }

  lemma JoinCons(x: string, rest: seq<string>, sep: string, tail: string)
    requires |rest| >= 1 && Join(rest, sep) == tail
    ensures Join([x] + rest, sep) == x + sep + tail
  {
    assert ([x] + rest)[1..] == rest;
  }

  lemma SliceThree(s: string, a: nat, p: nat, e: nat)
    requires a <= p <= e <= |s|
    ensures s[a..] == s[a..p] + s[p..e] + s[e..]
  {
  }

  lemma {:induction false} JoinPartsFrom(s: string, sep: string, start: nat)
    requires |sep| > 0 && start <= |s|
    ensures Join(PartsFrom(s, sep, start), sep) == s[start..]
    decreases |s| - start
  {
    match FirstFrom(s, sep, start)
    case None =>
      PartsFromLast(s, sep, start);
    case Some(p) =>
      var after := p + |sep|;
      var head, rest, tail := s[start..p], PartsFrom(s, sep, after), s[after..];
      PartsFromCut(s, sep, start, p, after);
      JoinPartsFrom(s, sep, after);
      PartsFromNonEmpty(s, sep, after);
      JoinCons(head, rest, sep, tail);
      SliceThree(s, start, p, after);
      assert s[p..after] == sep;
  }

  /** Joining the parts with the separator gives back the split string. */
  lemma JoinParts(s: string, sep: string)
    requires |sep| > 0
    ensures Join(Parts(s, sep), sep) == s
  {
    JoinPartsFrom(s, sep, 0);
    assert s[0..] == s;
  }

  lemma {:induction false} PartsFromAvoidSep(s: string, sep: string, start: nat)
    requires |sep| > 0 && start <= |s|
    ensures forall i :: 0 <= i < |PartsFrom(s, sep, start)| ==> !Contains(PartsFrom(s, sep, start)[i], sep)
    decreases |s| - start
  {
    FirstFromLeftmost(s, sep, start);
    match FirstFrom(s, sep, start)
    case None =>
      PartsFromLast(s, sep, start);
      forall q ensures !OccursAt(s[start..|s|], sep, q) {
        OccursInSlice(s, sep, start, |s|, q);
      }
      assert s[start..|s|] == s[start..];
    case Some(p) =>
      PartsFromCut(s, sep, start, p, p + |sep|);
      PartsFromAvoidSep(s, sep, p + |sep|);
      forall q ensures !OccursAt(s[start..p], sep, q) {
        OccursInSlice(s, sep, start, p, q);
      }
  }

  /** No part of the split contains the separator. */
  lemma PartsAvoidSep(s: string, sep: string)
    requires |sep| > 0
    ensures forall i :: 0 <= i < |Parts(s, sep)| ==> !Contains(Parts(s, sep)[i], sep)
  {
    PartsFromAvoidSep(s, sep, 0);
  }

  /** The characters s[a..b] hold when no position in [a, b) holds c. */
  lemma NoCharBetween(s: string, c: char, a: nat, b: nat)
    requires a <= b <= |s|
    requires forall k :: a <= k < b ==> !OccursAt(s, [c], k)
    ensures c !in multiset(s[a..b])
  {
    forall k | 0 <= k < b - a ensures s[a..b][k] != c {
      assert !OccursAt(s, [c], a + k);
      assert s[a + k..a + k + 1] == [s[a + k]];
    }
  }

  lemma {:induction false} PartsFromCount(s: string, c: char, start: nat)
    requires start <= |s|
    ensures |PartsFrom(s, [c], start)| == multiset(s[start..])[c] + 1
    decreases |s| - start
  {
    match FirstFrom(s, [c], start)
    case None =>
      PartsFromLast(s, [c], start);
      assert c !in multiset(s[start..]) by {
        FirstFromLeftmost(s, [c], start);
        NoCharBetween(s, c, start, |s|);
        assert s[start..|s|] == s[start..];
      }
    case Some(p) =>
      PartsFromCut(s, [c], start, p, p + 1);
      PartsFromCount(s, c, p + 1);
      assert c !in multiset(s[start..p]) by {
        FirstFromLeftmost(s, [c], start);
        NoCharBetween(s, c, start, p);
      }
      CountAround(s, c, start, p);
  }

  /** One occurrence of c at p, none before it: the count from start is one more than after p. */
  lemma CountAround(s: string, c: char, start: nat, p: nat)
    requires start <= p < |s| && OccursAt(s, [c], p) && c !in multiset(s[start..p])
    ensures multiset(s[start..])[c] == multiset(s[p + 1..])[c] + 1
  {
    SliceThree(s, start, p, p + 1);
    assert s[p..p + 1] == [c];
    assert multiset(s[start..]) == multiset(s[start..p]) + multiset([c]) + multiset(s[p + 1..]);
  }

  /** A one-character separator cuts s into one more part than it occurs. */
  lemma PartsCount(s: string, c: char)
    ensures |Parts(s, [c])| == multiset(s)[c] + 1
  {
    PartsFromCount(s, c, 0);
    assert s[0..] == s;
  }

  lemma AppendAssoc(a: seq<string>, b: seq<string>, c: seq<string>)
    ensures (a + b) + c == a + (b + c)
  {
  }

  /** A cut of split's loop: the part before an occurrence moves into the result. */
  lemma SplitStep(s: string, sep: string, result: seq<string>, start: nat, i: nat, next: seq<string>, after: nat)
    requires |sep| > 0 && start <= i && OccursAt(s, sep, i)
    requires FirstFrom(s, sep, start) == FirstFrom(s, sep, i)
    requires Parts(s, sep) == result + PartsFrom(s, sep, start)
    requires next == result + [s[start..i]] && after == i + |sep|
    ensures Parts(s, sep) == next + PartsFrom(s, sep, after)
  {
    assert FirstFrom(s, sep, start) == Some(i);
    PartsFromCut(s, sep, start, i, after);
    AppendAssoc(result, [s[start..i]], PartsFrom(s, sep, after));
  }

  /** The end of split's loop: what is left after the last cut is the last part. */
  lemma SplitDone(s: string, sep: string, result: seq<string>, start: nat, i: nat)
    requires |sep| > 0 && start <= i <= |s| < i + |sep|
    requires FirstFrom(s, sep, start) == FirstFrom(s, sep, i)
    requires Parts(s, sep) == result + PartsFrom(s, sep, start)
    ensures Parts(s, sep) == result + [s[start..]]
  {
    assert FirstFrom(s, sep, start) == None;
  }

  /**
   * split of config.go: scans s, cutting at each occurrence of sep; the
   * part after the last cut is always appended. An empty sep would never
   * advance the scan, so callers must pass a non-empty one.
   */
  method Split(s: string, sep: string) returns (result: seq<string>)
    requires |sep| > 0
    ensures result == Parts(s, sep)
  {
    result := [];
    var start := 0;
    var i := 0;
    while i + |sep| <= |s|
      invariant 0 <= start <= i <= |s|
      invariant FirstFrom(s, sep, start) == FirstFrom(s, sep, i)
      invariant Parts(s, sep) == result + PartsFrom(s, sep, start)
      decreases |s| - i
    {
      if OccursAt(s, sep, i) {
        ghost var before, from, at := result, start, i;
        result := result + [s[start..i]];
        i := i + |sep|;
        start := i;
        SplitStep(s, sep, before, from, at, result, start);
      } else {
        FirstFromSkip(s, sep, i);
        i := i + 1;
      }
    }
    SplitDone(s, sep, result, start, i);
    result := result + [s[start..]];
  }

  /** trim of config.go: s without its leading and then its trailing whitespace. */
  function Trimmed(s: string): string
    decreases |s|
  {
    if |s| > 0 && IsSpace(s[0]) then Trimmed(s[1..])
    else if |s| > 0 && IsSpace(s[|s| - 1]) then Trimmed(s[..|s| - 1])
    else s
  }

  /** The trimmed string is a slice of s with only whitespace cut off either side. */
  lemma {:induction false} TrimmedIsSlice(s: string) returns (a: nat, b: nat)
    ensures a <= b <= |s| && Trimmed(s) == s[a..b]
    ensures forall k :: 0 <= k < a ==> IsSpace(s[k])
    ensures forall k :: b <= k < |s| ==> IsSpace(s[k])
    decreases |s|
  {
    if |s| > 0 && IsSpace(s[0]) {
      var a', b' := TrimmedIsSlice(s[1..]);
      a, b := a' + 1, b' + 1;
      assert s[1..][a'..b'] == s[a..b];
    } else if |s| > 0 && IsSpace(s[|s| - 1]) {
      var a', b' := TrimmedIsSlice(s[..|s| - 1]);
      a, b := a', b';
      assert s[..|s| - 1][a'..b'] == s[a..b];
    } else {
      a, b := 0, |s|;
    }
  }

  /** Neither end of a trimmed string is whitespace. */
  lemma {:induction false} TrimmedEnds(s: string)
    ensures var t := Trimmed(s); t == [] || (!IsSpace(t[0]) && !IsSpace(t[|t| - 1]))
    decreases |s|
  {
    if |s| > 0 && IsSpace(s[0]) {
      TrimmedEnds(s[1..]);
    } else if |s| > 0 && IsSpace(s[|s| - 1]) {
      TrimmedEnds(s[..|s| - 1]);
    }
  }

  /** Trimming twice is trimming once. */
  lemma TrimmedIdempotent(s: string)
    ensures Trimmed(Trimmed(s)) == Trimmed(s)
  {
    TrimmedEnds(s);
  }

  /** Trimming yields "" exactly when s is whitespace only. */
  lemma {:induction false} TrimmedEmpty(s: string)
    ensures Trimmed(s) == "" <==> forall k :: 0 <= k < |s| ==> IsSpace(s[k])
    decreases |s|
  {
    if |s| > 0 && IsSpace(s[0]) {
      TrimmedEmpty(s[1..]);
      assert forall k :: 1 <= k < |s| ==> s[1..][k - 1] == s[k];
    } else if |s| > 0 && IsSpace(s[|s| - 1]) {
      TrimmedEmpty(s[..|s| - 1]);
    }
  }

  method Trim(s: string) returns (t: string)
    ensures t == Trimmed(s)
  {
    var start := 0;
    while start < |s| && IsSpace(s[start])
      invariant 0 <= start <= |s|
      invariant Trimmed(s[start..]) == Trimmed(s)
    {
      assert s[start..][1..] == s[start + 1..];
      start := start + 1;
    }
    var end := |s|;
    assert s[start..end] == s[start..];
    while end > start && IsSpace(s[end - 1])
      invariant start <= end <= |s|
      invariant start < |s| ==> !IsSpace(s[start])
      invariant Trimmed(s[start..end]) == Trimmed(s)
    {
      assert s[start..end][..end - 1 - start] == s[start..end - 1];
      end := end - 1;
    }
    t := s[start..end];
  }

  /** The parts of a split, each trimmed. */
  function TrimAll(parts: seq<string>): (r: seq<string>)
    ensures |r| == |parts|
  {
    if parts == [] then [] else [Trimmed(parts[0])] + TrimAll(parts[1..])
  }

  /** The strings of xs that are not "", in their order. */
  function NonEmpty(xs: seq<string>): seq<string> {
    if xs == [] then []
    else if xs[0] == "" then NonEmpty(xs[1..])
    else [xs[0]] + NonEmpty(xs[1..])
  }

  /** splitAndTrim of config.go. */
  method SplitAndTrim(s: string, sep: string) returns (result: seq<string>)
    requires |sep| > 0
    ensures |result| == |Parts(s, sep)|
    ensures forall i :: 0 <= i < |result| ==> result[i] == Trimmed(Parts(s, sep)[i])
  {
    var parts := Split(s, sep);
    result := [];
    var k := 0;
    while k < |parts|
      invariant 0 <= k <= |parts|
      invariant |result| == k
      invariant forall i :: 0 <= i < k ==> result[i] == Trimmed(parts[i])
    {
      var trimmed := Trim(parts[k]);
      result := result + [trimmed];
      k := k + 1;
    }
  }

  /** The host list LoadConfig computes from the raw variable value. */
  function CorsHosts(raw: string): seq<string> {
    NonEmpty(TrimAll(Parts(raw, HostSeparator)))
  }

  /**
   * The CORS part of LoadConfig: CORS_ALLOWED_HOSTS (None when unset,
   * then "*") split at commas, each part trimmed, empty parts dropped.
   */
  method LoadCorsAllowedHosts(env: Option<string>) returns (hosts: seq<string>)
    ensures hosts == CorsHosts(env.GetOr(DefaultCorsHosts))
  {
    var raw := env.GetOr(DefaultCorsHosts);
    var parts := SplitAndTrim(raw, HostSeparator);
    TrimAllUnique(Parts(raw, HostSeparator), parts);
    hosts := DropEmpty(parts);
  }

  /** The filter loop of LoadConfig: keeps the non-empty hosts in order. */
  method DropEmpty(parts: seq<string>) returns (hosts: seq<string>)
    ensures hosts == NonEmpty(parts)
  {
    hosts := [];
    var k := 0;
    while k < |parts|
      invariant 0 <= k <= |parts|
      invariant hosts == NonEmpty(parts[..k])
    {
      NonEmptySnoc(parts[..k], parts[k]);
      assert parts[..k + 1] == parts[..k] + [parts[k]];
      if parts[k] != "" {
        hosts := hosts + [parts[k]];
      }
      k := k + 1;
    }
    assert parts[..k] == parts;
  }

  lemma NonEmptySnoc(xs: seq<string>, x: string)
    ensures NonEmpty(xs + [x]) == NonEmpty(xs) + (if x == "" then [] else [x])
  {
    NonEmptyAppend(xs, [x]);
    assert [x][1..] == [];
  }

  lemma {:induction false} NonEmptyMembers(xs: seq<string>)
    ensures forall x :: x in NonEmpty(xs) <==> x in xs && x != ""
  {
    if xs != [] {
      NonEmptyMembers(xs[1..]);
      assert xs == [xs[0]] + xs[1..];
    }
  }

  /** Dropping empty strings keeps the order: it distributes over concatenation. */
  lemma {:induction false} NonEmptyAppend(xs: seq<string>, ys: seq<string>)
    ensures NonEmpty(xs + ys) == NonEmpty(xs) + NonEmpty(ys)
  {
    if xs == [] {
      assert xs + ys == ys;
    } else {
      assert (xs + ys)[0] == xs[0];
      assert (xs + ys)[1..] == xs[1..] + ys;
      NonEmptyAppend(xs[1..], ys);
    }
  }

  lemma TrimAllUnique(parts: seq<string>, r: seq<string>)
    requires |r| == |parts| && forall i :: 0 <= i < |r| ==> r[i] == Trimmed(parts[i])
    ensures r == TrimAll(parts)
  {
    forall i | 0 <= i < |r| ensures r[i] == TrimAll(parts)[i] {
      TrimAllAt(parts, i);
    }
  }

  lemma {:induction false} TrimAllAt(parts: seq<string>, i: nat)
    requires i < |parts|
    ensures TrimAll(parts)[i] == Trimmed(parts[i])
  {
    if i > 0 {
      TrimAllAt(parts[1..], i - 1);
    }
  }

  /** Every configured host is non-empty and has no whitespace at either end. */
  lemma CorsHostsWellFormed(raw: string)
    ensures forall h :: h in CorsHosts(raw) ==> h != "" && !IsSpace(h[0]) && !IsSpace(h[|h| - 1])
  {
    var parts := Parts(raw, HostSeparator);
    NonEmptyMembers(TrimAll(parts));
    forall h | h in CorsHosts(raw)
      ensures h != "" && !IsSpace(h[0]) && !IsSpace(h[|h| - 1])
    {
      var i :| 0 <= i < |TrimAll(parts)| && TrimAll(parts)[i] == h;
      TrimAllAt(parts, i);
      TrimmedEnds(parts[i]);
    }
  }

  /** Every configured host is a trimmed comma-separated part of the raw value. */
  lemma CorsHostsFromParts(raw: string, h: string)
    requires h in CorsHosts(raw)
    ensures exists i :: 0 <= i < |Parts(raw, HostSeparator)| && h == Trimmed(Parts(raw, HostSeparator)[i])
  {
    var parts := Parts(raw, HostSeparator);
    NonEmptyMembers(TrimAll(parts));
    var i :| 0 <= i < |TrimAll(parts)| && TrimAll(parts)[i] == h;
    TrimAllAt(parts, i);
    assert h == Trimmed(parts[i]);
  }

  /** With CORS_ALLOWED_HOSTS unset the list is exactly ["*"]. */
  lemma CorsHostsDefault()
    ensures CorsHosts(DefaultCorsHosts) == ["*"]
  {
    assert "*"[0..1] == "*";
    assert FirstFrom("*", HostSeparator, 0) == None;
    assert "*"[0..] == "*";
    assert Parts("*", HostSeparator) == ["*"];
    assert Trimmed("*") == "*";
    assert TrimAll(["*"]) == ["*"] + TrimAll([]);
    assert NonEmpty(["*"]) == ["*"] + NonEmpty([]);
  }

  /** A variable set to "" (or to commas and blanks only) yields no host at all. */
  lemma CorsHostsBlank(raw: string)
    requires forall k :: 0 <= k < |raw| ==> IsSpace(raw[k]) || raw[k] == ','
    ensures CorsHosts(raw) == []
  {
    var parts := Parts(raw, HostSeparator);
    forall i | 0 <= i < |parts| ensures TrimAll(parts)[i] == "" {
      TrimAllAt(parts, i);
      PartBlank(raw, i);
      TrimmedEmpty(parts[i]);
    }
    NonEmptyOfBlanks(TrimAll(parts));
  }

  lemma {:induction false} NonEmptyOfBlanks(xs: seq<string>)
    requires forall i :: 0 <= i < |xs| ==> xs[i] == ""
    ensures NonEmpty(xs) == []
  {
    if xs != [] {
      NonEmptyOfBlanks(xs[1..]);
    }
  }

  /** Each part of a string made of blanks and commas is blank. */
  lemma PartBlank(raw: string, i: nat)
    requires forall k :: 0 <= k < |raw| ==> IsSpace(raw[k]) || raw[k] == ','
    requires i < |Parts(raw, HostSeparator)|
    ensures forall k :: 0 <= k < |Parts(raw, HostSeparator)[i]| ==> IsSpace(Parts(raw, HostSeparator)[i][k])
  {
    var parts := Parts(raw, HostSeparator);
    PartsAvoidSep(raw, HostSeparator);
    JoinParts(raw, HostSeparator);
    PartIsSubstring(parts, HostSeparator, i);
    NoSeparatorChar(parts[i]);
    CharsDrawnFrom(parts[i], raw);
  }

  /** A string that does not contain "," has no ',' character. */
  lemma NoSeparatorChar(part: string)
    requires !Contains(part, HostSeparator)
    ensures forall k :: 0 <= k < |part| ==> part[k] != ','
  {
    forall k | 0 <= k < |part| ensures part[k] != ',' {
      assert part[k..k + 1] == [part[k]];
      assert !OccursAt(part, HostSeparator, k);
    }
  }

  /** Characters taken from a string of blanks and commas are blanks or commas. */
  lemma CharsDrawnFrom(part: string, raw: string)
    requires multiset(part) <= multiset(raw)
    requires forall k :: 0 <= k < |raw| ==> IsSpace(raw[k]) || raw[k] == ','
    ensures forall k :: 0 <= k < |part| ==> IsSpace(part[k]) || part[k] == ','
  {
    forall k | 0 <= k < |part| ensures IsSpace(part[k]) || part[k] == ',' {
      assert part[k] in multiset(part);
      assert part[k] in raw;
    }
  }

  /** Every character of a part occurs in the joined string. */
  lemma {:induction false} PartIsSubstring(parts: seq<string>, sep: string, i: nat)
    requires i < |parts|
    ensures multiset(parts[i]) <= multiset(Join(parts, sep))
  {
    if |parts| > 1 {
      if i > 0 {
        PartIsSubstring(parts[1..], sep, i - 1);
      }
    }
  }
}
