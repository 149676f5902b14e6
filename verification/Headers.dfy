/** The case-insensitive header map of a response, and its crossing to the host as JSON. */
module Headers {
  import opened Text
  import opened HostFiles

  datatype Entry = Entry(key: string, val: string)

  // ----- The ordering

  /** `std::lexicographical_compare` with `tolower` on both sides. */
  predicate CiLess(a: string, b: string) {
    if b == "" then false
    else if a == "" then true
    else if ToLower(a[0]) < ToLower(b[0]) then true
    else if ToLower(b[0]) < ToLower(a[0]) then false
    else CiLess(a[1..], b[1..])
  }

  /** Neither comes before the other. */
  predicate Equivalent(a: string, b: string) { !CiLess(a, b) && !CiLess(b, a) }

  lemma {:induction false} CiAsymmetric(a: string, b: string)
    ensures !(CiLess(a, b) && CiLess(b, a))
    decreases |a|
  {
    if a != "" && b != "" {
      CiAsymmetric(a[1..], b[1..]);
    }
  }

  lemma {:induction false} CiTransitive(a: string, b: string, c: string)
    requires CiLess(a, b) && CiLess(b, c)
    ensures CiLess(a, c)
    decreases |a|
  {
    if a != "" && ToLower(a[0]) == ToLower(b[0]) == ToLower(c[0]) {
      CiTransitive(a[1..], b[1..], c[1..]);
    }
  }

  /** Being equivalent is being equal up to the case of ASCII letters. */
  lemma {:induction false} EquivalentIsEqualIgnoringCase(a: string, b: string)
    ensures Equivalent(a, b) <==> EqualIgnoringCase(a, b)
    decreases |a|
  {
    if a != "" && b != "" {
      EquivalentIsEqualIgnoringCase(a[1..], b[1..]);
      assert EqualIgnoringCase(a, b) <==> ToLower(a[0]) == ToLower(b[0]) && EqualIgnoringCase(a[1..], b[1..]) by {
        EqualIgnoringCaseStep(a, b);
      }
    }
  }

  lemma EqualIgnoringCaseStep(a: string, b: string)
    requires a != "" && b != ""
    ensures EqualIgnoringCase(a, b) <==> ToLower(a[0]) == ToLower(b[0]) && EqualIgnoringCase(a[1..], b[1..])
  {
    if ToLower(a[0]) == ToLower(b[0]) && EqualIgnoringCase(a[1..], b[1..]) {
      forall i | 0 <= i < |a|
        ensures ToLower(a[i]) == ToLower(b[i])
      {
        if i > 0 {
          assert ToLower(a[1..][i - 1]) == ToLower(b[1..][i - 1]);
        }
      }
    }
    if EqualIgnoringCase(a, b) {
      assert forall i :: 0 <= i < |a[1..]| ==> a[1..][i] == a[i + 1] && b[1..][i] == b[i + 1];
    }
  }

  /** Names are equivalent exactly when they are spelled with the same letters. */
  lemma EquivalentIsSameLetters(a: string, b: string)
    ensures Equivalent(a, b) <==> SameLetters(a, b)
  {
    EquivalentIsEqualIgnoringCase(a, b);
    EqualIgnoringCaseExact(a, b);
  }

  /** The code of the character in lower case. */
  function LowerCode(c: char): int { if 'A' <= c <= 'Z' then c as int + 32 else c as int }

  /** `n` is where `a` first differs from `b`, or ends, and comes before it. */
  predicate BeforeAt(a: string, b: string, n: nat) {
    && n <= |a| && n <= |b|
    && (forall i :: 0 <= i < n ==> LowerCode(a[i]) == LowerCode(b[i]))
    && n < |b| && (n < |a| ==> LowerCode(a[n]) < LowerCode(b[n]))
  }

  /** The order is that of the first place where the names differ in more than case. */
  lemma {:induction false} CiLessExact(a: string, b: string)
    ensures CiLess(a, b) <==> exists n: nat :: BeforeAt(a, b, n)
    decreases |a|
  {
    if b == "" {
    } else if a == "" {
      assert BeforeAt(a, b, 0);
    } else if LowerCode(a[0]) != LowerCode(b[0]) {
      assert CiLess(a, b) <==> BeforeAt(a, b, 0);
      assert forall n: nat :: n > 0 ==> !BeforeAt(a, b, n);
    } else {
      CiLessExact(a[1..], b[1..]);
      forall n: nat
        ensures BeforeAt(a, b, n + 1) <==> BeforeAt(a[1..], b[1..], n)
      {
        BeforeAtNext(a, b, n);
      }
      assert !BeforeAt(a, b, 0);
      if n: nat :| BeforeAt(a, b, n) {
        BeforeAtNext(a, b, n - 1);
        assert BeforeAt(a[1..], b[1..], n - 1);
      }
    }
  }

  lemma BeforeAtNext(a: string, b: string, n: nat)
    requires a != "" && b != "" && LowerCode(a[0]) == LowerCode(b[0])
    ensures BeforeAt(a, b, n + 1) <==> BeforeAt(a[1..], b[1..], n)
  {
    hide LowerCode;
    if BeforeAt(a[1..], b[1..], n) {
      forall i | 0 <= i < n + 1
        ensures LowerCode(a[i]) == LowerCode(b[i])
      {
        if i > 0 {
          assert LowerCode(a[1..][i - 1]) == LowerCode(b[1..][i - 1]);
        }
      }
    }
    if BeforeAt(a, b, n + 1) {
      forall i | 0 <= i < n
        ensures LowerCode(a[1..][i]) == LowerCode(b[1..][i])
      {
        assert LowerCode(a[i + 1]) == LowerCode(b[i + 1]);
      }
    }
  }

  /** `ci` is a strict weak order: irreflexive, transitive, and equivalence is transitive. */
  lemma StrictWeakOrder(a: string, b: string, c: string)
    ensures !CiLess(a, a)
    ensures CiLess(a, b) && CiLess(b, c) ==> CiLess(a, c)
    ensures Equivalent(a, b) && Equivalent(b, c) ==> Equivalent(a, c)
    ensures Equivalent(a, b) ==> (CiLess(a, c) <==> CiLess(b, c))
  {
    CiAsymmetric(a, a);
    if CiLess(a, b) && CiLess(b, c) {
      CiTransitive(a, b, c);
    }
    EquivalentIsEqualIgnoringCase(a, b);
    EquivalentIsEqualIgnoringCase(b, c);
    EquivalentIsEqualIgnoringCase(a, c);
    if Equivalent(a, b) {
      CiLessOfEqual(a, b, c);
    }
  }

  lemma {:induction false} CiLessOfEqual(a: string, b: string, c: string)
    requires EqualIgnoringCase(a, b)
    ensures CiLess(a, c) <==> CiLess(b, c)
    decreases |a|
  {
    if a != "" && c != "" {
      EqualIgnoringCaseStep(a, b);
      CiLessOfEqual(a[1..], b[1..], c[1..]);
    }
  }

  // ----- The map: entries in the order of `ci`, no two of them equivalent

  predicate AllAfter(key: string, h: seq<Entry>) { forall e :: e in h ==> CiLess(key, e.key) }

  predicate Sorted(h: seq<Entry>) { h == [] || (AllAfter(h[0].key, h[1..]) && Sorted(h[1..])) }

  function Find(h: seq<Entry>, key: string): Option<Entry> {
    if h == [] then None else if EqualIgnoringCase(h[0].key, key) then Some(h[0]) else Find(h[1..], key)
  }

  /** `std::map::emplace`: an equivalent entry that is there stays. */
  function Emplace(h: seq<Entry>, e: Entry): seq<Entry> {
    if h == [] then [e]
    else if CiLess(h[0].key, e.key) then [h[0]] + Emplace(h[1..], e)
    else if CiLess(e.key, h[0].key) then [e] + h
    else h
  }

  lemma {:induction false} NothingBefore(h: seq<Entry>, key: string, other: string)
    requires AllAfter(key, h) && EqualIgnoringCase(other, key)
    ensures Find(h, other) == None
    decreases |h|
  {
    if h != [] {
      assert h[0] in h && CiLess(key, h[0].key);
      CiLessOfEqual(other, key, h[0].key);
      EquivalentIsEqualIgnoringCase(h[0].key, other);
      NothingBefore(h[1..], key, other);
    }
  }

  lemma {:induction false} EmplaceElements(h: seq<Entry>, e: Entry)
    ensures forall x :: x in Emplace(h, e) ==> x in h || x == e
    decreases |h|
  {
    if h != [] {
      EmplaceElements(h[1..], e);
    }
  }

  lemma {:induction false} EmplaceSorted(h: seq<Entry>, e: Entry)
    requires Sorted(h)
    ensures Sorted(Emplace(h, e))
    decreases |h|
  {
    if h != [] {
      var r := Emplace(h, e);
      if CiLess(h[0].key, e.key) {
        EmplaceSorted(h[1..], e);
        EmplaceElements(h[1..], e);
        assert r[1..] == Emplace(h[1..], e);
      } else if CiLess(e.key, h[0].key) {
        assert r[1..] == h;
        forall x | x in h
          ensures CiLess(e.key, x.key)
        {
          if x != h[0] {
            CiTransitive(e.key, h[0].key, x.key);
          }
        }
      }
    }
  }

  lemma EqualIgnoringCaseIsEquivalence(a: string, b: string, c: string)
    ensures EqualIgnoringCase(a, a)
    ensures EqualIgnoringCase(a, b) <==> EqualIgnoringCase(b, a)
    ensures EqualIgnoringCase(a, b) && EqualIgnoringCase(b, c) ==> EqualIgnoringCase(a, c)
  {
  }

  /** An entry is added under its name exactly when there was none under that name. */
  lemma {:induction false} FindAfterEmplace(h: seq<Entry>, e: Entry, key: string)
    requires Sorted(h)
    ensures Find(Emplace(h, e), key) ==
            if Find(h, key).Some? then Find(h, key) else if EqualIgnoringCase(e.key, key) then Some(e) else None
    decreases |h|
  {
    hide EqualIgnoringCase, CiLess;
    EqualIgnoringCaseIsEquivalence(key, e.key, e.key);
    if h != [] {
      var r := Emplace(h, e);
      EqualIgnoringCaseIsEquivalence(h[0].key, e.key, key);
      EqualIgnoringCaseIsEquivalence(h[0].key, key, e.key);
      EquivalentIsEqualIgnoringCase(h[0].key, e.key);
      if CiLess(h[0].key, e.key) {
        FindAfterEmplace(h[1..], e, key);
        assert r[1..] == Emplace(h[1..], e);
      } else if CiLess(e.key, h[0].key) {
        assert r[1..] == h;
        if EqualIgnoringCase(e.key, key) {
          forall x | x in h
            ensures CiLess(e.key, x.key)
          {
            if x != h[0] {
              CiTransitive(e.key, h[0].key, x.key);
            }
          }
          NothingBefore(h, e.key, key);
        }
      }
    }
  }

  /** A map is determined by what is found under each name. */
  lemma {:induction false} SameFindSameMap(a: seq<Entry>, b: seq<Entry>)
    requires Sorted(a) && Sorted(b) && forall key :: Find(a, key) == Find(b, key)
    ensures a == b
    decreases |a|
  {
    hide CiLess, EqualIgnoringCase;
    if b != [] {
      EqualIgnoringCaseIsEquivalence(b[0].key, b[0].key, b[0].key);
      assert Find(a, b[0].key) == Some(b[0]);
    }
    if a != [] {
      EqualIgnoringCaseIsEquivalence(a[0].key, a[0].key, a[0].key);
      assert Find(b, a[0].key) == Some(a[0]);
      FoundIsIn(a, b[0].key);
      FoundIsIn(b, a[0].key);
      CiAsymmetric(a[0].key, b[0].key);
      assert a[0] == b[0];
      forall key
        ensures Find(a[1..], key) == Find(b[1..], key)
      {
        assert Find(a, key) == Find(b, key);
        EqualIgnoringCaseIsEquivalence(a[0].key, key, key);
        if EqualIgnoringCase(a[0].key, key) {
          NothingBefore(a[1..], a[0].key, key);
          NothingBefore(b[1..], a[0].key, key);
        }
      }
      SameFindSameMap(a[1..], b[1..]);
      assert a == [a[0]] + a[1..] && b == [b[0]] + b[1..];
    }
  }

  lemma {:induction false} FoundIsIn(h: seq<Entry>, key: string)
    ensures Find(h, key).Some? ==> Find(h, key).value in h && EqualIgnoringCase(Find(h, key).value.key, key)
    decreases |h|
  {
    if h != [] {
      FoundIsIn(h[1..], key);
    }
  }

  lemma {:induction false} EntryIsFound(h: seq<Entry>, e: Entry)
    requires Sorted(h) && e in h
    ensures Find(h, e.key) == Some(e)
    decreases |h|
  {
    hide CiLess, EqualIgnoringCase;
    EqualIgnoringCaseIsEquivalence(e.key, h[0].key, e.key);
    if e != h[0] {
      assert e in h[1..] && CiLess(h[0].key, e.key);
      EquivalentIsEqualIgnoringCase(h[0].key, e.key);
      EntryIsFound(h[1..], e);
    }
  }

  // ----- Setting headers

  /** A carriage return or line feed before the first NUL. */
  predicate HasCRLF(s: string) {
    exists i :: 0 <= i < |s| && (s[i] == '\r' || s[i] == '\n') && '\0' !in s[..i]
  }

  predicate Clean(e: Entry) { !HasCRLF(e.key) && !HasCRLF(e.val) }

  function Set(h: seq<Entry>, e: Entry): seq<Entry> { if Clean(e) then Emplace(h, e) else h }

  function SetAll(h: seq<Entry>, calls: seq<Entry>): seq<Entry>
    decreases |calls|
  {
    if calls == [] then h else SetAll(Set(h, calls[0]), calls[1..])
  }

  /** The first call that names `key` and is not refused. */
  function FirstWritten(calls: seq<Entry>, key: string): Option<Entry> {
    if calls == [] then None
    else if Clean(calls[0]) && EqualIgnoringCase(calls[0].key, key) then Some(calls[0])
    else FirstWritten(calls[1..], key)
  }

  /** Any run of `SetHeader` keeps one entry per name: the one that was there, or else the first one written. */
  lemma {:induction false} FirstWriteWins(h: seq<Entry>, calls: seq<Entry>, key: string)
    requires Sorted(h)
    ensures Sorted(SetAll(h, calls))
    ensures Find(SetAll(h, calls), key) == if Find(h, key).Some? then Find(h, key) else FirstWritten(calls, key)
    decreases |calls|
  {
    hide Clean, EqualIgnoringCase, Emplace, Find;
    if calls != [] {
      if Clean(calls[0]) {
        EmplaceSorted(h, calls[0]);
        FindAfterEmplace(h, calls[0], key);
      }
      FirstWriteWins(Set(h, calls[0]), calls[1..], key);
    }
  }

  /** No line break, as far as the string goes for a C function: up to its first NUL. */
  predicate NoBreak(s: string) {
    forall i :: 0 <= i < |s| && (s[i] == '\n' || s[i] == '\r') ==> exists j :: 0 <= j < i && s[j] == '\0'
  }

  lemma CleanIsNoBreak(s: string)
    ensures !HasCRLF(s) <==> NoBreak(s)
  {
    forall i | 0 <= i < |s|
      ensures '\0' in s[..i] <==> exists j :: 0 <= j < i && s[j] == '\0'
    {
      assert forall j :: 0 <= j < i ==> s[..i][j] == s[j];
    }
  }

  /** Whatever headers are set, none in the map has a line break in its name or its value. */
  lemma {:induction false} NoneHasABreak(h: seq<Entry>, calls: seq<Entry>)
    requires forall e :: e in h ==> NoBreak(e.key) && NoBreak(e.val)
    ensures forall e :: e in SetAll(h, calls) ==> NoBreak(e.key) && NoBreak(e.val)
    decreases |calls|
  {
    hide NoBreak, HasCRLF;
    if calls != [] {
      CleanIsNoBreak(calls[0].key);
      CleanIsNoBreak(calls[0].val);
      EmplaceElements(h, calls[0]);
      NoneHasABreak(Set(h, calls[0]), calls[1..]);
    }
  }

  /** One without a line break is in the map after it has been set, unless its name was there in some spelling. */
  lemma SetIsKept(h: seq<Entry>, e: Entry)
    requires Sorted(h) && NoBreak(e.key) && NoBreak(e.val)
    requires forall x :: x in h ==> !SameLetters(x.key, e.key)
    ensures e in Set(h, e) && |Set(h, e)| == |h| + 1
  {
    hide NoBreak, HasCRLF, SameLetters;
    CleanIsNoBreak(e.key);
    CleanIsNoBreak(e.val);
    EmplaceNew(h, e);
  }

  lemma {:induction false} EmplaceNew(h: seq<Entry>, e: Entry)
    requires forall x :: x in h ==> !SameLetters(x.key, e.key)
    ensures e in Emplace(h, e) && |Emplace(h, e)| == |h| + 1
    decreases |h|
  {
    hide SameLetters;
    if h != [] {
      EquivalentIsSameLetters(h[0].key, e.key);
      EmplaceNew(h[1..], e);
    }
  }

  lemma {:induction false} EmplacePresent(h: seq<Entry>, x: Entry, e: Entry)
    requires Sorted(h) && x in h && SameLetters(x.key, e.key)
    ensures Emplace(h, e) == h
    decreases |h|
  {
    EqualIgnoringCaseExact(x.key, e.key);
    EquivalentIsEqualIgnoringCase(x.key, e.key);
    hide SameLetters;
    if x != h[0] {
      assert x in h[1..] && CiLess(h[0].key, x.key);
      EqualIgnoringCaseIsEquivalence(x.key, e.key, e.key);
      LessOfEqual(h[0].key, x.key, e.key);
      EmplacePresent(h[1..], x, e);
    }
  }

  lemma LessOfEqual(a: string, b: string, c: string)
    requires CiLess(a, b) && Equivalent(b, c)
    ensures CiLess(a, c)
  {
    CiAsymmetric(a, b);
    StrictWeakOrder(b, c, a);
    StrictWeakOrder(a, c, b);
    if Equivalent(a, c) {
      EquivalentIsEqualIgnoringCase(a, c);
      StrictWeakOrder(a, c, b);
    }
  }

  /** A second spelling of a name that is there changes nothing, whatever its value. */
  lemma SecondSpelling(h: seq<Entry>, e: Entry, other: Entry)
    requires Sorted(h) && e in h && SameLetters(e.key, other.key)
    ensures Set(h, other) == h
  {
    EmplacePresent(h, e, other);
  }

  // ----- Crossing as JSON

  datatype Value = Text(text: string) | OtherValue

  datatype StatusMember = Integer(value: int) | OtherStatus

  /** What a text is as JSON, as far as it is read: nothing, or an object whose two members may be missing or null. */
  datatype Json = Unparsable | Root(status: Option<StatusMember>, headers: Option<map<string, Value>>)

  /** Each entry of the map under its own name. */
  predicate Pictures(m: map<string, Value>, h: seq<Entry>) {
    && (forall e :: e in h ==> e.key in m && m[e.key] == Text(e.val))
    && (forall k :: k in m ==> m[k].Text? && Entry(k, m[k].text) in h)
  }

  /** The members of a JSON object in some order. */
  ghost predicate IsOrder(keys: seq<string>, m: map<string, Value>) {
    (forall k :: k in keys <==> k in m) && forall i, j :: 0 <= i < j < |keys| ==> keys[i] != keys[j]
  }

  /** The members up to the first whose value is not a string. */
  function Members(keys: seq<string>, m: map<string, Value>): seq<Entry>
    requires forall k :: k in keys ==> k in m
    decreases |keys|
  {
    if keys == [] || !m[keys[0]].Text? then [] else [Entry(keys[0], m[keys[0]].text)] + Members(keys[1..], m)
  }

  predicate AllText(keys: seq<string>, m: map<string, Value>)
    requires forall k :: k in keys ==> k in m
  {
    forall k :: k in keys ==> m[k].Text?
  }

  class Response {
    var statusCode: int
    var headers: seq<Entry>

    ghost predicate Valid()
      reads this
    {
      Sorted(headers)
    }

    constructor (statusCode: int)
      ensures Valid() && this.statusCode == statusCode && headers == []
    {
      this.statusCode, headers := statusCode, [];
    }

    static method CallHasCRLF(s: string) returns (r: bool)
      ensures r == HasCRLF(s)
    {
      var p := 0;
      while p < |s| && s[p] != '\0'
        invariant 0 <= p <= |s|
        invariant forall i :: 0 <= i < p ==> s[i] != '\r' && s[i] != '\n' && s[i] != '\0'
      {
        if s[p] == '\r' || s[p] == '\n' {
          return true;
        }
        p := p + 1;
      }
      if p < |s| {
        assert forall i :: p < i < |s| ==> s[..i][p] == '\0';
      }
      r := false;
    }

    method SetHeader(key: string, val: string)
      requires Valid()
      modifies this`headers
      ensures Valid() && headers == Set(old(headers), Entry(key, val))
    {
      var inKey := CallHasCRLF(key);
      var inVal := CallHasCRLF(val);
      if !inKey && !inVal {
        EmplaceSorted(headers, Entry(key, val));
        headers := Emplace(headers, Entry(key, val));
      }
    }

    method ToJsonWithoutBody() returns (json: Json)
      requires Valid()
      ensures json.Root? && json.status == Some(Integer(statusCode))
      ensures json.headers.None? <==> headers == []
      ensures json.headers.Some? ==> Pictures(json.headers.value, headers)
    {
      if headers == [] {
        return Root(Some(Integer(statusCode)), None);
      }
      var m: map<string, Value> := map[];
      for i := 0 to |headers|
        invariant forall j :: 0 <= j < i ==> headers[j].key in m && m[headers[j].key] == Text(headers[j].val)
        invariant forall k :: k in m ==> m[k].Text? && exists j :: 0 <= j < i && headers[j] == Entry(k, m[k].text)
      {
        forall j | 0 <= j < i
          ensures headers[j].key != headers[i].key
        {
          KeysDiffer(headers, j, i);
        }
        m := m[headers[i].key := Text(headers[i].val)];
      }
      json := Root(Some(Integer(statusCode)), Some(m));
    }

    /** `keys` is the order in which the JSON library yields the members; the status is read as an unsigned short. A
        text that cannot be parsed is refused and changes nothing; a member of another type throws, when the members
        before it have been taken over. */
    method FromJsonWithoutBody(json: Json, keys: seq<string>) returns (r: Option<bool>)
      requires Valid()
      requires json.Root? && json.headers.Some? ==> IsOrder(keys, json.headers.value)
      modifies this
      ensures Valid()
      ensures r == Some(false) <==> json.Unparsable?
      ensures r == Some(true) <==> json.Root? && json.status != Some(OtherStatus)
                                   && (json.headers.Some? ==> AllText(keys, json.headers.value))
      ensures statusCode == if json.Root? && json.status.Some? && json.status.value.Integer?
                            then json.status.value.value % 0x1_0000 else old(statusCode)
      ensures headers == if json.Root? && json.status != Some(OtherStatus) && json.headers.Some?
                         then SetAll(old(headers), Members(keys, json.headers.value)) else old(headers)
    {
      if json.Unparsable? {
        return Some(false);
      }
      if json.status.Some? {
        if json.status.value.OtherStatus? {
          return None;
        }
        statusCode := json.status.value.value % 0x1_0000;
      }
      if json.headers.Some? {
        var m := json.headers.value;
        ghost var all := Members(keys, m);
        for i := 0 to |keys|
          invariant Valid()
          invariant statusCode == if json.status.Some? then json.status.value.value % 0x1_0000 else old(statusCode)
          invariant SetAll(old(headers), all) == SetAll(headers, Members(keys[i..], m))
          invariant forall j :: 0 <= j < i ==> m[keys[j]].Text?
        {
          assert keys[i..][0] == keys[i] && keys[i..][1..] == keys[i + 1..];
          if !m[keys[i]].Text? {
            assert keys[i] in keys;
            return None;
          }
          SetHeader(keys[i], m[keys[i]].text);
        }
      }
      r := Some(true);
    }
  }

  /** Two calls whose names differ in case only leave one entry, the first. */
  method SetInTwoSpellings(r: Response, first: Entry, second: Entry)
    requires r.Valid() && r.headers == [] && SameLetters(first.key, second.key)
    requires NoBreak(first.key) && NoBreak(first.val)
    modifies r`headers
    ensures r.headers == [first]
  {
    SetIsKept([], first);
    r.SetHeader(first.key, first.val);
    SecondSpelling([first], first, second);
    r.SetHeader(second.key, second.val);
  }

  lemma {:induction false} KeysDiffer(h: seq<Entry>, i: nat, j: nat)
    requires Sorted(h) && i < j < |h|
    ensures h[i].key != h[j].key
    decreases |h|
  {
    if i == 0 {
      assert h[j] == h[1..][j - 1] && h[j] in h[1..];
      CiAsymmetric(h[0].key, h[j].key);
    } else {
      KeysDiffer(h[1..], i - 1, j - 1);
    }
  }

  lemma {:induction false} MembersAre(keys: seq<string>, m: map<string, Value>)
    requires (forall k :: k in keys ==> k in m) && AllText(keys, m)
    ensures forall e :: e in Members(keys, m) <==> e.key in keys && m[e.key] == Text(e.val)
    decreases |keys|
  {
    if keys != [] {
      MembersAre(keys[1..], m);
      assert keys == [keys[0]] + keys[1..];
      assert forall k :: k in keys <==> k == keys[0] || k in keys[1..];
    }
  }

  /** The members that are taken over are those before the first that is not a string, in their order. */
  lemma {:induction false} MembersInOrder(keys: seq<string>, m: map<string, Value>)
    requires forall k :: k in keys ==> k in m
    ensures var all := Members(keys, m);
            && |all| <= |keys|
            && (forall i :: 0 <= i < |all| ==> m[keys[i]] == Text(all[i].val) && all[i].key == keys[i])
            && (|all| < |keys| ==> !m[keys[|all|]].Text?)
    decreases |keys|
  {
    if keys != [] {
      MembersInOrder(keys[1..], m);
    }
  }

  lemma {:induction false} FirstIsOnly(calls: seq<Entry>, h: seq<Entry>, key: string)
    requires Sorted(h) && forall e :: e in calls ==> e in h
    ensures FirstWritten(calls, key) ==
            if Find(h, key).Some? && Find(h, key).value in calls && Clean(Find(h, key).value) then Find(h, key)
            else None
    decreases |calls|
  {
    hide Clean, EqualIgnoringCase;
    FoundIsIn(h, key);
    if calls != [] {
      FirstIsOnly(calls[1..], h, key);
      EntryIsFound(h, calls[0]);
      if EqualIgnoringCase(calls[0].key, key) {
        FindOfEqual(h, calls[0].key, key);
      }
    }
  }

  lemma {:induction false} FindOfEqual(h: seq<Entry>, a: string, b: string)
    requires EqualIgnoringCase(a, b)
    ensures Find(h, a) == Find(h, b)
    decreases |h|
  {
    hide EqualIgnoringCase;
    if h != [] {
      EqualIgnoringCaseIsEquivalence(h[0].key, a, b);
      EqualIgnoringCaseIsEquivalence(h[0].key, b, a);
      EqualIgnoringCaseIsEquivalence(a, b, a);
      FindOfEqual(h[1..], a, b);
    }
  }

  /** Printing to JSON and reading into a fresh response restores exactly the clean headers, in whatever order the
      members come; so it restores all of them exactly when none has a line break, and the status exactly when it is an
      unsigned short. */
  lemma JsonRoundTrip(status: int, h: seq<Entry>, m: map<string, Value>, keys: seq<string>)
    requires Sorted(h) && Pictures(m, h) && IsOrder(keys, m)
    ensures var read := SetAll([], Members(keys, m));
            && Sorted(read)
            && (forall key :: Find(read, key) ==
                  if Find(h, key).Some? && Clean(Find(h, key).value) then Find(h, key) else None)
            && (read == h <==> forall e :: e in h ==> Clean(e))
    ensures status % 0x1_0000 == status <==> 0 <= status < 0x1_0000
  {
    hide Clean, EqualIgnoringCase, Find, Sorted;
    var calls := Members(keys, m);
    var read := SetAll([], calls);
    assert Sorted([]) && forall key :: Find([], key) == None by {
      EmptyMap();
    }
    MembersAre(keys, m);
    assert forall e :: e in calls <==> e in h;
    FirstWriteWins([], calls, "");
    forall key
      ensures Find(read, key) == if Find(h, key).Some? && Clean(Find(h, key).value) then Find(h, key) else None
    {
      FirstWriteWins([], calls, key);
      FirstIsOnly(calls, h, key);
      FoundIsIn(h, key);
    }
    if read == h {
      forall e | e in h
        ensures Clean(e)
      {
        EntryIsFound(h, e);
      }
    } else if forall e :: e in h ==> Clean(e) {
      forall key
        ensures Find(read, key) == Find(h, key)
      {
        FoundIsIn(h, key);
      }
      SameFindSameMap(read, h);
    }
  }

  lemma EmptyMap()
    ensures Sorted([])
    ensures forall key :: Find([], key) == None
  {
  }
}
