/**
 Matching language tags against language ranges, after RFC 4647, and looking up the best of several choices.
 A tag or a range is its normalised text; the text of an empty one is empty.
 */
module LanguageTags {

  const WILDCARD := "*"
  const DELIMITER := '-'

  type Subtags = s: seq<string> | s != [] witness [""]

  // ----- subtags -----

  /** The text between the delimiters: always at least one, maybe empty, piece. */
  function Split(s: string): Subtags {
    if s == [] then [""]
    else if s[0] == DELIMITER then [""] + Split(s[1..])
    else
      var rest := Split(s[1..]);
      [[s[0]] + rest[0]] + rest[1..]
  }

  function Join(l: Subtags): string {
    if |l| == 1 then l[0] else l[0] + [DELIMITER] + Join(l[1..])
  }

  lemma JoinLonger(c: char, l: Subtags)
    ensures Join([[c] + l[0]] + l[1..]) == [c] + Join(l)
    ensures Join([""] + l) == [DELIMITER] + Join(l)
  {
    assert ([[c] + l[0]] + l[1..])[1..] == l[1..];
    assert ([""] + l)[1..] == l;
    assert "" + [DELIMITER] + Join(l) == [DELIMITER] + Join(l);
  }

  lemma {:induction false} JoinSplit(s: string)
    ensures Join(Split(s)) == s
  {
    if s != [] {
      hide Join;
      JoinSplit(s[1..]);
      JoinLonger(s[0], Split(s[1..]));
      assert s == [s[0]] + s[1..];
    }
  }

  lemma {:induction false} JoinBoth(a: Subtags, b: Subtags)
    ensures a + b != [] && Join(a + b) == Join(a) + [DELIMITER] + Join(b)
  {
    if |a| == 1 {
      assert (a + b)[1..] == b;
    } else {
      assert (a + b)[1..] == a[1..] + b;
      JoinBoth(a[1..], b);
    }
  }

  lemma {:induction false} SplitBoth(s: string, t: string)
    ensures Split(s + [DELIMITER] + t) == Split(s) + Split(t)
  {
    if s == [] {
      assert ([DELIMITER] + t)[1..] == t;
      assert s + [DELIMITER] + t == [DELIMITER] + t;
    } else {
      assert (s + [DELIMITER] + t)[1..] == s[1..] + [DELIMITER] + t;
      SplitBoth(s[1..], t);
    }
  }

  // ----- basic matching -----

  predicate MatchesBasic(tag: Subtags, range: Subtags) {
    range == [WILDCARD] || range <= tag
  }

  /** Matching the texts comes to matching the lists of their subtags. */
  method MatchBasicText(tag: string, range: string) returns (matched: bool)
    ensures matched <==> MatchesBasic(Split(tag), Split(range))
  {
    JoinSplit(tag);
    JoinSplit(range);
    if range == WILDCARD {
      WildcardSplit();
      return true;
    }
    NotWildcard(range);
    if |range| > |tag| {
      Prefixed(tag, range);
      return false;
    }
    if tag == range {
      return true;
    }
    if |range| == |tag| {
      Prefixed(tag, range);
      return false;
    }
    if tag[..|range|] == range && tag[|range|] == DELIMITER {
      assert tag == range + [DELIMITER] + tag[|range| + 1..];
      SplitBoth(range, tag[|range| + 1..]);
      return true;
    }
    Prefixed(tag, range);
    return false;
  }

  lemma WildcardSplit()
    ensures Split(WILDCARD) == [WILDCARD]
  {
    assert WILDCARD[1..] == [];
    assert Split([]) == [""];
    assert [WILDCARD[0]] + "" == WILDCARD;
  }

  lemma NotWildcard(range: string)
    requires range != WILDCARD
    ensures Split(range) != [WILDCARD]
  {
    JoinSplit(range);
  }

  /** If the subtags of a range begin those of a tag, its text is that of the tag, or all of it up to a delimiter. */
  lemma {:induction false} Prefixed(tag: string, range: string)
    ensures Split(range) <= Split(tag) ==>
              tag == range || (|range| < |tag| && tag[..|range|] == range && tag[|range|] == DELIMITER)
  {
    hide Split, Join;
    JoinSplit(tag);
    JoinSplit(range);
    var a, b := Split(range), Split(tag);
    if a <= b && |a| == |b| {
      assert a == b;
    } else if a <= b {
      JoinBoth(a, b[|a|..]);
      assert a + b[|a|..] == b;
    }
  }

  method MatchBasic(tag: seq<string>, range: seq<string>) returns (matched: bool)
    ensures matched <==> range != [] && (range == [WILDCARD] || range <= tag)
  {
    if range == [] {
      return false;
    }
    if |range| == 1 && range[0] == WILDCARD {
      return true;
    }
    if |range| > |tag| {
      return false;
    }
    var i := 0;
    while i < |range|
      invariant 0 <= i <= |range| && range[..i] == tag[..i]
    {
      if tag[i] != range[i] {
        return false;
      }
      i := i + 1;
    }
    return true;
  }

  // ----- extended matching -----

  /** The subtags a range asks for. */
  function Wanted(range: seq<string>): seq<string> {
    if range == [] then []
    else (if range[0] == WILDCARD then [] else [range[0]]) + Wanted(range[1..])
  }

  /** All but the wildcards, in order. */
  lemma {:induction false} WantedAre(front: seq<string>, subtag: string, back: seq<string>)
    ensures Wanted(front + [subtag] + back)
            == Wanted(front) + (if subtag == WILDCARD then [] else [subtag]) + Wanted(back)
  {
    var all := front + [subtag] + back;
    assert all[0] == if front == [] then subtag else front[0];
    assert all[1..] == if front == [] then back else front[1..] + [subtag] + back;
    if front != [] {
      WantedAre(front[1..], subtag, back);
    }
  }

  /** The wanted subtags stand in the tag at these places, in order, and no subtag of one character is passed over. */
  ghost predicate Places(tag: seq<string>, wanted: seq<string>, at: seq<nat>) {
    && |at| == |wanted|
    && (forall k :: 0 <= k < |at| ==> at[k] < |tag| && tag[at[k]] == wanted[k])
    && (forall j, k :: 0 <= j < k < |at| ==> at[j] < at[k])
    && (forall i :: 0 <= i < |tag| && at != [] && i < at[|at| - 1] && i !in at ==> |tag[i]| != 1)
  }

  ghost predicate CanPlace(tag: seq<string>, wanted: seq<string>) {
    exists at :: Places(tag, wanted, at)
  }

  /** Section 3.3.2 of RFC 4647: the first subtags agree, and the other subtags of the range can be placed. */
  ghost predicate MatchesExtended(tag: Subtags, range: Subtags) {
    && (tag[0] == range[0] || range[0] == WILDCARD)
    && CanPlace(tag[1..], Wanted(range[1..]))
  }

  function Shifted(at: seq<nat>): seq<nat> {
    seq(|at|, k requires 0 <= k < |at| => at[k] + 1)
  }

  function Unshifted(at: seq<nat>): seq<nat>
    requires forall k :: 0 <= k < |at| ==> at[k] > 0
  {
    seq(|at|, k requires 0 <= k < |at| => at[k] - 1)
  }

  lemma InShifted(at: seq<nat>, i: nat)
    ensures i in Shifted(at) <==> i > 0 && i - 1 in at
  {
    var to := Shifted(at);
    assert forall k :: 0 <= k < |at| ==> to[k] == at[k] + 1;
    if i > 0 && i - 1 in at {
      var k :| 0 <= k < |at| && at[k] == i - 1;
      assert to[k] == i;
    }
  }

  lemma InUnshifted(at: seq<nat>, i: nat)
    requires forall k :: 0 <= k < |at| ==> at[k] > 0
    ensures i in Unshifted(at) <==> i + 1 in at
  {
    var to := Unshifted(at);
    assert forall k :: 0 <= k < |at| ==> to[k] == at[k] - 1;
    if i + 1 in at {
      var k :| 0 <= k < |at| && at[k] == i + 1;
      assert to[k] == i;
    }
  }

  lemma PlaceNothing(tag: seq<string>)
    ensures CanPlace(tag, [])
  {
    assert Places(tag, [], []);
  }

  lemma PlaceInNothing(wanted: seq<string>)
    requires wanted != []
    ensures !CanPlace([], wanted)
  {
    forall at ensures !Places([], wanted, at) {
      assert at != [] ==> !(at[0] < 0);
    }
  }

  /** Passing over the first subtag, unless it has one character. */
  lemma PassOver(tag: seq<string>, wanted: seq<string>, at: seq<nat>)
    requires tag != [] && Places(tag[1..], wanted, at) && (at == [] || |tag[0]| != 1)
    ensures Places(tag, wanted, Shifted(at))
  {
    var to := Shifted(at);
    forall i | 0 <= i < |tag| && to != [] && i < to[|to| - 1] && i !in to ensures |tag[i]| != 1 {
      InShifted(at, i);
      assert i > 0 ==> tag[1..][i - 1] == tag[i];
    }
  }

  lemma ShiftedPlaces(tag: seq<string>, wanted: seq<string>, at: seq<nat>)
    requires tag != [] && wanted != [] && tag[0] == wanted[0] && Places(tag[1..], wanted[1..], at)
    ensures var to := [0] + Shifted(at);
            && |to| == |wanted| && forall k :: 0 <= k < |to| ==> to[k] < |tag| && tag[to[k]] == wanted[k]
  {
    var to := [0] + Shifted(at);
    forall k | 0 <= k < |to|
      ensures to[k] < |tag| && tag[to[k]] == wanted[k]
    {
      if k > 0 {
        assert to[k] == at[k - 1] + 1;
        assert tag[1..][at[k - 1]] == wanted[1..][k - 1];
      }
    }
  }

  lemma ShiftedAscends(at: seq<nat>)
    requires forall j, k :: 0 <= j < k < |at| ==> at[j] < at[k]
    ensures var to := [0] + Shifted(at); forall j, k :: 0 <= j < k < |to| ==> to[j] < to[k]
    ensures var to := [0] + Shifted(at); to[|to| - 1] == if at == [] then 0 else at[|at| - 1] + 1
  {
    var to := [0] + Shifted(at);
    assert forall k :: 0 < k < |to| ==> to[k] == at[k - 1] + 1;
  }

  /** Placing the first wanted subtag at the first subtag, which it equals. */
  lemma PlaceFirst(tag: seq<string>, wanted: seq<string>, at: seq<nat>)
    requires tag != [] && wanted != [] && tag[0] == wanted[0] && Places(tag[1..], wanted[1..], at)
    ensures Places(tag, wanted, [0] + Shifted(at))
  {
    hide Shifted;
    ShiftedPlaces(tag, wanted, at);
    ShiftedAscends(at);
    var to := [0] + Shifted(at);
    forall i | 0 <= i < |tag| && i < to[|to| - 1] && i !in to
      ensures |tag[i]| != 1
    {
      NotAmong(at, i);
      assert tag[1..][i - 1] == tag[i];
    }
  }

  lemma NotAmong(at: seq<nat>, i: nat)
    requires i !in [0] + Shifted(at)
    ensures i > 0 && i - 1 !in at
  {
    assert 0 in [0] + Shifted(at);
    InShifted(at, i);
    assert forall k :: k in Shifted(at) ==> k in [0] + Shifted(at);
  }

  /** A placement behind the first subtag. */
  lemma PlacedBehind(tag: seq<string>, wanted: seq<string>, at: seq<nat>)
    requires tag != [] && Places(tag, wanted, at) && forall k :: 0 <= k < |at| ==> at[k] > 0
    ensures Places(tag[1..], wanted, Unshifted(at))
  {
    var to := Unshifted(at);
    forall i | 0 <= i < |tag[1..]| && to != [] && i < to[|to| - 1] && i !in to ensures |tag[1..][i]| != 1 {
      InUnshifted(at, i);
      assert tag[1..][i] == tag[i + 1];
    }
  }

  lemma OthersBehind(tag: seq<string>, wanted: seq<string>, at: seq<nat>)
    requires at != [] && Places(tag, wanted, at)
    ensures forall k :: 0 <= k < |at[1..]| ==> at[0] < at[1..][k]
    ensures forall i: nat :: i in at <==> i == at[0] || i in at[1..]
    ensures at[0] > 0 ==> 0 !in at
  {
    assert at == [at[0]] + at[1..];
    assert forall k :: 0 <= k < |at[1..]| ==> at[1..][k] == at[k + 1];
  }

  /** Where the first wanted subtag is placed makes no difference to what may be passed over. */
  lemma PassedOver(tag: seq<string>, wanted: seq<string>, at: seq<nat>, i: nat)
    requires tag != [] && wanted != [] && tag[0] == wanted[0] && Places(tag, wanted, at)
    requires |at| > 1 && 0 < i < at[|at| - 1] && i !in at[1..]
    ensures |tag[i]| != 1
  {
    OthersBehind(tag, wanted, at);
    if i == at[0] {
      // the first subtag was passed over, and this one equals it
      assert 0 !in at;
      assert |tag[0]| != 1;
      assert tag[i] == wanted[0];
    }
  }

  /** A wanted subtag may always be placed where it first occurs. */
  lemma PlacedFirst(tag: seq<string>, wanted: seq<string>, at: seq<nat>)
    requires tag != [] && wanted != [] && tag[0] == wanted[0] && Places(tag, wanted, at)
    ensures (forall k :: 0 <= k < |at[1..]| ==> at[1..][k] > 0) && Places(tag[1..], wanted[1..], Unshifted(at[1..]))
  {
    OthersBehind(tag, wanted, at);
    var rest := at[1..];
    var to := Unshifted(rest);
    forall i | 0 <= i < |tag[1..]| && to != [] && i < to[|to| - 1] && i !in to ensures |tag[1..][i]| != 1 {
      InUnshifted(rest, i);
      PassedOver(tag, wanted, at, i + 1);
    }
  }

  lemma TakeIt(tag: seq<string>, wanted: seq<string>)
    requires tag != [] && wanted != [] && tag[0] == wanted[0]
    ensures CanPlace(tag, wanted) <==> CanPlace(tag[1..], wanted[1..])
  {
    if at :| Places(tag, wanted, at) {
      PlacedFirst(tag, wanted, at);
    }
    if at :| Places(tag[1..], wanted[1..], at) {
      PlaceFirst(tag, wanted, at);
    }
  }

  lemma NotHere(tag: seq<string>, wanted: seq<string>, at: seq<nat>)
    requires tag != [] && wanted != [] && tag[0] != wanted[0] && Places(tag, wanted, at)
    ensures |tag[0]| != 1 && forall k :: 0 <= k < |at| ==> at[k] > 0
  {
    assert at[0] != 0;
    assert forall k :: 0 <= k < |at| ==> at[k] >= at[0];
    assert 0 !in at;
  }

  lemma PassIt(tag: seq<string>, wanted: seq<string>)
    requires tag != [] && wanted != [] && tag[0] != wanted[0]
    ensures CanPlace(tag, wanted) <==> |tag[0]| != 1 && CanPlace(tag[1..], wanted)
  {
    if at :| Places(tag, wanted, at) {
      NotHere(tag, wanted, at);
      PlacedBehind(tag, wanted, at);
    }
    if |tag[0]| != 1 {
      if at :| Places(tag[1..], wanted, at) {
        PassOver(tag, wanted, at);
      }
    }
  }

  /** The greedy walk along tag and range finds a placement exactly when there is one. */
  method MatchExtended(tag: Subtags, range: Subtags) returns (matched: bool)
    ensures matched <==> MatchesExtended(tag, range)
  {
    hide CanPlace;
    if tag[0] != range[0] && range[0] != WILDCARD {
      return false;
    }
    var t, r := 1, 1;
    while r < |range|
      invariant 1 <= t <= |tag| && 1 <= r <= |range|
      invariant CanPlace(tag[1..], Wanted(range[1..])) <==> CanPlace(tag[t..], Wanted(range[r..]))
      decreases |range| - r, |tag| - t
    {
      assert range[r..][1..] == range[r + 1..];
      if range[r] == WILDCARD {
        assert Wanted(range[r..]) == Wanted(range[r + 1..]);
        r := r + 1;
        continue;
      }
      if t >= |tag| {
        assert tag[t..] == [];
        PlaceInNothing(Wanted(range[r..]));
        return false;
      }
      assert tag[t..][1..] == tag[t + 1..];
      assert Wanted(range[r..]) == [range[r]] + Wanted(range[r + 1..]);
      assert Wanted(range[r..])[1..] == Wanted(range[r + 1..]);
      if tag[t] == range[r] {
        TakeIt(tag[t..], Wanted(range[r..]));
        t := t + 1;
        r := r + 1;
        continue;
      }
      PassIt(tag[t..], Wanted(range[r..]));
      if |tag[t]| == 1 {
        return false;
      }
      t := t + 1;
    }
    assert range[r..] == [];
    PlaceNothing(tag[t..]);
    return true;
  }

  /** Equal texts match at once. */
  method MatchExtendedTags(tag: string, range: string) returns (matched: bool)
    ensures matched <==> tag == range || MatchesExtended(Split(tag), Split(range))
    ensures WILDCARD !in Split(tag) ==> (matched <==> MatchesExtended(Split(tag), Split(range)))
  {
    SelfMatch(Split(tag));
    if tag == range {
      return true;
    }
    matched := MatchExtended(Split(tag), Split(range));
  }

  lemma SelfMatch(tag: Subtags)
    ensures WILDCARD !in tag ==> MatchesExtended(tag, tag)
  {
    if WILDCARD !in tag {
      SelfPlace(tag[1..]);
      AllWanted(tag[1..]);
    }
  }

  lemma {:induction false} AllWanted(tag: seq<string>)
    requires WILDCARD !in tag
    ensures Wanted(tag) == tag
  {
    if tag != [] {
      AllWanted(tag[1..]);
      assert tag == [tag[0]] + tag[1..];
    }
  }

  lemma {:induction false} SelfPlace(tag: seq<string>)
    ensures CanPlace(tag, tag)
  {
    hide CanPlace;
    if tag == [] {
      PlaceNothing([]);
    } else {
      SelfPlace(tag[1..]);
      TakeIt(tag, tag);
    }
  }

  // ----- lookup -----

  datatype Scheme = FilterBasic | FilterExtended | OtherScheme

  /** A choice answers a range: it is neither empty nor the wildcard, and its subtags match by the scheme. */
  ghost predicate Matches(scheme: Scheme, choice: string, range: seq<string>) {
    && choice != "" && choice != WILDCARD && range != []
    && match scheme
       case FilterBasic => MatchesBasic(Split(choice), range)
       case FilterExtended => MatchesExtended(Split(choice), range)
       case OtherScheme => false
  }

  /** A text without wildcard answers itself by either scheme, and by the basic one whatever is in it. */
  lemma AnswersItself(scheme: Scheme, tag: string)
    requires tag != "" && tag != WILDCARD
    ensures scheme == FilterBasic || (scheme == FilterExtended && WILDCARD !in Split(tag)) ==>
              Matches(scheme, tag, Split(tag))
  {
    SelfMatch(Split(tag));
  }

  /** Of an empty choice, or the wildcard, no subtags are kept. */
  function SplitChoice(choice: string): seq<string> {
    if choice == "" || choice == WILDCARD then [] else Split(choice)
  }

  ghost predicate AreSplit(choices: seq<string>, split: seq<seq<string>>) {
    |split| == |choices| && forall i :: 0 <= i < |choices| ==> split[i] == SplitChoice(choices[i])
  }

  /** Without the last subtag, and without the subtags of one character in front of it. */
  function Truncated(range: seq<string>): (shorter: seq<string>)
    requires range != []
    ensures |shorter| < |range| && shorter <= range
    ensures shorter != [] ==> |shorter[|shorter| - 1]| != 1
    ensures forall i :: |shorter| <= i < |range| - 1 ==> |range[i]| == 1
  {
    DropSingles(range[..|range| - 1])
  }

  function DropSingles(range: seq<string>): (shorter: seq<string>)
    ensures |shorter| <= |range| && shorter <= range
    ensures shorter != [] ==> |shorter[|shorter| - 1]| != 1
    ensures forall i :: |shorter| <= i < |range| ==> |range[i]| == 1
  {
    if range != [] && |range[|range| - 1]| == 1 then DropSingles(range[..|range| - 1]) else range
  }

  /** The range and what is left of it when it is truncated again and again, longest first. */
  function Fallbacks(range: seq<string>, truncate: bool): (all: seq<seq<string>>)
    ensures forall r <- all :: r != []
    decreases |range|
  {
    if range == [] then [] else [range] + if truncate then Fallbacks(Truncated(range), truncate) else []
  }

  lemma FallbacksUnfold(range: Subtags, truncate: bool)
    ensures Fallbacks(range, truncate) == [range] + if truncate then Fallbacks(Truncated(range), truncate) else []
    ensures Fallbacks([], truncate) == []
  {
  }

  /** Each is shorter than the one before it. */
  lemma {:induction false} FallbacksShrink(range: seq<string>, truncate: bool)
    ensures var all := Fallbacks(range, truncate);
            && (forall i :: 0 <= i < |all| ==> |all[i]| <= |range|)
            && (forall i, j :: 0 <= i < j < |all| ==> |all[j]| < |all[i]|)
    decreases |range|
  {
    if range != [] {
      FallbacksUnfold(range, truncate);
      if truncate {
        var rest := Fallbacks(Truncated(range), truncate);
        FallbacksShrink(Truncated(range), truncate);
        assert forall i :: 0 < i < |rest| + 1 ==> ([range] + rest)[i] == rest[i - 1];
      }
    }
  }

  /** The range itself, and each of its beginnings that does not end in a subtag of one character. */
  lemma {:induction false} FallbacksAre(range: seq<string>, r: seq<string>)
    requires range != []
    ensures r in Fallbacks(range, true) <==> r == range || (r != [] && r < range && |r[|r| - 1]| != 1)
    decreases |range|
  {
    var rest := Truncated(range);
    if rest != [] {
      FallbacksAre(rest, r);
    }
    if r < range && r != [] && |r| > |rest| {
      assert r[|r| - 1] == range[|r| - 1];
    }
  }

  /** No choice matches this range. */
  ghost predicate NoneMatches(scheme: Scheme, choices: seq<string>, range: seq<string>) {
    forall c <- choices :: !Matches(scheme, c, range)
  }

  /** Choice `i` is the first to match. */
  ghost predicate FirstMatch(scheme: Scheme, choices: seq<string>, range: seq<string>, i: nat) {
    i < |choices| && Matches(scheme, choices[i], range) && NoneMatches(scheme, choices[..i], range)
  }

  /** No choice matches the tag or what truncation leaves of it. */
  ghost predicate Hopeless(scheme: Scheme, choices: seq<string>, fallbacks: seq<seq<string>>) {
    forall r <- fallbacks :: NoneMatches(scheme, choices, r)
  }

  /** The first choice to match the longest truncation that any choice matches. */
  ghost predicate Best(scheme: Scheme, choices: seq<string>, fallbacks: seq<seq<string>>, i: nat) {
    exists k :: 0 <= k < |fallbacks| && FirstMatch(scheme, choices, fallbacks[k], i)
        && Hopeless(scheme, choices, fallbacks[..k])
  }

  /** The best choice for the first priority for which there is one, or -1. */
  ghost predicate Chosen(scheme: Scheme, choices: seq<string>, priority: seq<string>, truncate: bool, result: int) {
    if result == -1 then forall p <- priority :: Hopeless(scheme, choices, Fallbacks(Split(p), truncate))
    else
      && 0 <= result < |choices|
      && exists n :: 0 <= n < |priority| && Best(scheme, choices, Fallbacks(Split(priority[n]), truncate), result)
           && forall p <- priority[..n] :: Hopeless(scheme, choices, Fallbacks(Split(p), truncate))
  }

  /** There is no looking in vain when one of the choices is what is asked for. */
  lemma FoundIfAmong(scheme: Scheme, choices: seq<string>, priority: seq<string>, truncate: bool, result: int,
                     tag: string)
    requires Chosen(scheme, choices, priority, truncate, result)
    requires tag in choices && tag in priority && tag != "" && tag != WILDCARD
    requires scheme == FilterBasic || (scheme == FilterExtended && WILDCARD !in Split(tag))
    ensures result != -1
  {
    hide Matches;
    AnswersItself(scheme, tag);
    assert Fallbacks(Split(tag), truncate)[0] == Split(tag);
    assert !NoneMatches(scheme, choices, Split(tag));
    assert !Hopeless(scheme, choices, Fallbacks(Split(tag), truncate));
  }

  /** Where there is a best choice, looking is not in vain, and there is one only. */
  lemma BestIsOne(scheme: Scheme, choices: seq<string>, fallbacks: seq<seq<string>>, i: nat, j: nat)
    requires Best(scheme, choices, fallbacks, i)
    ensures !Hopeless(scheme, choices, fallbacks)
    ensures Best(scheme, choices, fallbacks, j) ==> i == j
  {
    hide Matches;
    var k :| 0 <= k < |fallbacks| && FirstMatch(scheme, choices, fallbacks[k], i)
             && Hopeless(scheme, choices, fallbacks[..k]);
    assert !NoneMatches(scheme, choices, fallbacks[k]) by {
      assert choices[i] in choices;
    }
    assert fallbacks[k] in fallbacks;
    if Best(scheme, choices, fallbacks, j) {
      var m :| 0 <= m < |fallbacks| && FirstMatch(scheme, choices, fallbacks[m], j)
               && Hopeless(scheme, choices, fallbacks[..m]);
      assert !NoneMatches(scheme, choices, fallbacks[m]) by {
        assert choices[j] in choices;
      }
      FirstIsOne(fallbacks, k, m);
      FirstIsOne(choices, i, j);
    }
  }

  lemma FirstIsOne<T>(all: seq<T>, i: nat, j: nat)
    requires i < |all| && j < |all|
    ensures i < j ==> all[i] in all[..j]
    ensures j < i ==> all[j] in all[..i]
  {
    assert i < j ==> all[..j][i] == all[i];
    assert j < i ==> all[..i][j] == all[j];
  }

  /** What is chosen is settled by the choices, the priorities and the scheme. */
  lemma ChosenIsOne(scheme: Scheme, choices: seq<string>, priority: seq<string>, truncate: bool, r: int, q: int)
    requires Chosen(scheme, choices, priority, truncate, r) && Chosen(scheme, choices, priority, truncate, q)
    ensures r == q
    decreases r == -1
  {
    hide Best, Hopeless, Fallbacks;
    if r != -1 {
      var n :| 0 <= n < |priority| && Best(scheme, choices, Fallbacks(Split(priority[n]), truncate), r)
               && forall p <- priority[..n] :: Hopeless(scheme, choices, Fallbacks(Split(p), truncate));
      BestIsOne(scheme, choices, Fallbacks(Split(priority[n]), truncate), r, r);
      assert priority[n] in priority;
      assert q != -1;
      var m :| 0 <= m < |priority| && Best(scheme, choices, Fallbacks(Split(priority[m]), truncate), q)
               && forall p <- priority[..m] :: Hopeless(scheme, choices, Fallbacks(Split(p), truncate));
      BestIsOne(scheme, choices, Fallbacks(Split(priority[m]), truncate), q, r);
      FirstIsOne(priority, n, m);
    } else if q != -1 {
      ChosenIsOne(scheme, choices, priority, truncate, q, r);
    }
  }

  lemma OtherNever(choices: seq<string>)
    ensures forall range: seq<string> :: NoneMatches(OtherScheme, choices, range)
  {
  }

  /** The first choice that matches a range, or their number if none does. */
  method FindChoice(scheme: Scheme, split: seq<seq<string>>, range: Subtags, ghost choices: seq<string>)
    returns (i: nat)
    requires scheme != OtherScheme && AreSplit(choices, split)
    ensures i <= |choices| && NoneMatches(scheme, choices[..i], range)
    ensures i < |choices| ==> Matches(scheme, choices[i], range)
  {
    hide Split, CanPlace;
    i := 0;
    while i < |split|
      invariant i <= |choices| && NoneMatches(scheme, choices[..i], range)
    {
      var choice := split[i];
      if choice != [] {
        var matched;
        if scheme == FilterBasic {
          matched := MatchBasic(choice, range);
        } else {
          matched := MatchExtended(choice, range);
        }
        if matched {
          return;
        }
      }
      assert choices[..i + 1] == choices[..i] + [choices[i]];
      i := i + 1;
    }
  }

  lemma OneMoreHopeless(scheme: Scheme, choices: seq<string>, front: seq<seq<string>>, r: seq<string>)
    requires Hopeless(scheme, choices, front) && NoneMatches(scheme, choices, r)
    ensures Hopeless(scheme, choices, front + [r])
  {
  }

  /** Cuts the end off a range. */
  method Truncate(range: Subtags) returns (shorter: seq<string>)
    ensures shorter == Truncated(range)
  {
    shorter := range[..|range| - 1];
    while shorter != [] && |shorter[|shorter| - 1]| == 1
      invariant DropSingles(shorter) == Truncated(range)
      decreases |shorter|
    {
      shorter := shorter[..|shorter| - 1];
    }
  }

  lemma ThisIsBest(scheme: Scheme, choices: seq<string>, front: seq<seq<string>>, range: Subtags,
                   back: seq<seq<string>>, i: nat)
    requires Hopeless(scheme, choices, front) && FirstMatch(scheme, choices, range, i)
    ensures Best(scheme, choices, front + [range] + back, i)
  {
    var all := front + [range] + back;
    assert all[|front|] == range && all[..|front|] == front;
  }

  method LookupOne(split: seq<seq<string>>, tag: Subtags, truncate: bool, scheme: Scheme,
                   ghost choices: seq<string>)
    returns (result: int)
    requires scheme != OtherScheme && AreSplit(choices, split)
    ensures result == -1 ==> Hopeless(scheme, choices, Fallbacks(tag, truncate))
    ensures result != -1 ==> 0 <= result < |choices| && Best(scheme, choices, Fallbacks(tag, truncate), result)
  {
    hide Fallbacks, Matches, Best;
    var sub: Subtags := tag;
    ghost var front: seq<seq<string>> := [];
    while true
      invariant Fallbacks(tag, truncate) == front + Fallbacks(sub, truncate)
      invariant Hopeless(scheme, choices, front)
      decreases |sub|
    {
      FallbacksUnfold(sub, truncate);
      ghost var back := if truncate then Fallbacks(Truncated(sub), truncate) else [];
      assert Fallbacks(tag, truncate) == front + [sub] + back;
      var i := FindChoice(scheme, split, sub, choices);
      if i < |split| {
        ThisIsBest(scheme, choices, front, sub, back, i);
        return i;
      }
      assert choices[..i] == choices;
      OneMoreHopeless(scheme, choices, front, sub);
      front := front + [sub];
      if !truncate {
        assert front + [] == front;
        break;
      }
      var rest := Truncate(sub);
      if rest == [] {
        assert front + [] == front;
        break;
      }
      sub := rest;
    }
    return -1;
  }

  /** The first matching choice for the earliest priority, at its longest truncation, that any choice matches. */
  method Lookup(choices: seq<string>, priority: seq<string>, noFallback: bool, scheme: Scheme) returns (result: int)
    ensures Chosen(scheme, choices, priority, !noFallback, result)
  {
    hide Fallbacks, Best, Matches;
    var split: seq<seq<string>> := [];
    var i := 0;
    while i < |choices|
      invariant i <= |choices| && AreSplit(choices[..i], split)
    {
      split := split + [SplitChoice(choices[i])];
      i := i + 1;
    }
    assert choices[..i] == choices;
    if |split| == 0 {
      return -1;
    }
    if scheme == OtherScheme {
      OtherNever(choices);
      return -1;
    }
    var n := 0;
    while n < |priority|
      invariant n <= |priority|
      invariant forall p <- priority[..n] :: Hopeless(scheme, choices, Fallbacks(Split(p), !noFallback))
    {
      result := LookupOne(split, Split(priority[n]), !noFallback, scheme, choices);
      if result != -1 {
        return;
      }
      assert priority[..n + 1] == priority[..n] + [priority[n]];
      n := n + 1;
    }
    assert priority[..n] == priority;
    return -1;
  }
}
