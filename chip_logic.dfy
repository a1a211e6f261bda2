/** The pure part of the chip input: the chip record, the fixed candidate
    list, the string helpers the suggestion filter relies on, and the
    array expressions (`filter`, `find`) the event handlers evaluate. */
module ChipLogic {

  datatype Option<T> = None | Some(value: T)

  /** A chip, and equally a candidate of the fixed list: the candidates'
      optional icon is presentation only and is not modelled, so a chip is
      exactly the id, display label and email copied from a candidate.
      The label is the field `name`, since `label` is a reserved word in Dafny. */
  datatype Chip = Chip(id: string, name: string, email: string)

  /** The ten candidates offered as suggestions, in their fixed order. */
  const Items: seq<Chip> := [
    Chip("1", "Alice Johnson", "alice@example.com"),
    Chip("2", "Bob Smith", "bob@example.com"),
    Chip("3", "Catherine Davis", "catherine@example.com"),
    Chip("4", "David Miller", "david@example.com"),
    Chip("5", "Eva Robinson", "eva@example.com"),
    Chip("6", "Frank Wilson", "frank@example.com"),
    Chip("7", "Grace Brown", "grace@example.com"),
    Chip("8", "Henry Taylor", "henry@example.com"),
    Chip("9", "Isabel White", "isabel@example.com"),
    Chip("10", "Jack Anderson", "jack@example.com")
  ]

  // ---------------------------------------------------------------------
  // Strings
  // ---------------------------------------------------------------------

  /** Lower-cases one character; only the ASCII letters A-Z are mapped. */
  function LowerChar(c: char): char {
    if 'A' <= c <= 'Z' then (c as int + 32) as char else c
  }

  /** `toLowerCase`: character by character, and no upper-case ASCII letter is left. */
  function ToLower(s: string): (r: string)
    ensures |r| == |s|
    ensures forall i | 0 <= i < |s| :: r[i] == LowerChar(s[i])
    ensures forall i | 0 <= i < |r| :: !('A' <= r[i] <= 'Z')
  {
    seq(|s|, i requires 0 <= i < |s| => LowerChar(s[i]))
  }

  /** `sub` appears in `s` starting at position `i`. */
  predicate OccursAt(s: string, sub: string, i: nat) {
    i + |sub| <= |s| && s[i..i + |sub|] == sub
  }

  /** `includes`: `sub` is a contiguous part of `s` (the empty string is part of every string). */
  function Includes(s: string, sub: string): (r: bool)
    ensures r <==> exists i: nat | i <= |s| :: OccursAt(s, sub, i)
    decreases |s|
  {
    if sub <= s then
      assert OccursAt(s, sub, 0);
      true
    else if s == [] then
      false
    else
      var r := Includes(s[1..], sub);
      assert r ==> exists i: nat | i <= |s| :: OccursAt(s, sub, i) by {
        if r {
          var i: nat :| i <= |s[1..]| && OccursAt(s[1..], sub, i);
          assert s[1..][i..i + |sub|] == s[i + 1..i + 1 + |sub|];
          assert OccursAt(s, sub, i + 1);
        }
      }
      assert (exists i: nat | i <= |s| :: OccursAt(s, sub, i)) ==> r by {
        if exists i: nat | i <= |s| :: OccursAt(s, sub, i) {
          var i: nat :| i <= |s| && OccursAt(s, sub, i);
          assert i != 0;
          assert s[1..][i - 1..i - 1 + |sub|] == s[i..i + |sub|];
          assert OccursAt(s[1..], sub, i - 1);
        }
      }
      r
  }

  /** The characters `trim` removes: ECMAScript white space and line terminators. */
  predicate IsSpace(c: char) {
    || c == '\t' || c == '\n' || c == '\U{000B}' || c == '\U{000C}' || c == '\r'
    || c == ' ' || c == '\U{00A0}' || c == '\U{1680}'
    || ('\U{2000}' <= c <= '\U{200A}')
    || c == '\U{2028}' || c == '\U{2029}' || c == '\U{202F}' || c == '\U{205F}'
    || c == '\U{3000}' || c == '\U{FEFF}'
  }

  /** Drops the leading white space. */
  function TrimStart(s: string): string {
    if s != [] && IsSpace(s[0]) then TrimStart(s[1..]) else s
  }

  /** Drops the trailing white space. */
  function TrimEnd(s: string): string {
    if s != [] && IsSpace(s[|s| - 1]) then TrimEnd(s[..|s| - 1]) else s
  }

  /** `trim`: drops the white space at both ends. */
  function Trim(s: string): string {
    TrimEnd(TrimStart(s))
  }

  /** What TrimStart leaves is a suffix of `s` that does not start with
      white space, and everything it dropped was white space. */
  lemma {:induction false} TrimStartSpec(s: string)
    ensures |TrimStart(s)| <= |s| && TrimStart(s) == s[|s| - |TrimStart(s)|..]
    ensures forall i | 0 <= i < |s| - |TrimStart(s)| :: IsSpace(s[i])
    ensures TrimStart(s) != [] ==> !IsSpace(TrimStart(s)[0])
  {
    if s != [] && IsSpace(s[0]) {
      var rest := s[1..];
      TrimStartSpec(rest);
      var t := TrimStart(rest);
      assert TrimStart(s) == t;
      assert rest[|rest| - |t|..] == s[|s| - |t|..];
      forall i | 0 <= i < |s| - |t| ensures IsSpace(s[i]) {
        if i > 0 {
          assert s[i] == rest[i - 1];
        }
      }
    }
  }

  /** What TrimEnd leaves is a prefix of `s` that does not end with white
      space, and everything it dropped was white space. */
  lemma {:induction false} TrimEndSpec(s: string)
    ensures |TrimEnd(s)| <= |s| && TrimEnd(s) == s[..|TrimEnd(s)|]
    ensures forall i | |TrimEnd(s)| <= i < |s| :: IsSpace(s[i])
    ensures TrimEnd(s) != [] ==> !IsSpace(TrimEnd(s)[|TrimEnd(s)| - 1])
  {
    if s != [] && IsSpace(s[|s| - 1]) {
      var rest := s[..|s| - 1];
      TrimEndSpec(rest);
      var t := TrimEnd(rest);
      assert TrimEnd(s) == t;
      assert rest[..|t|] == s[..|t|];
      forall i | |t| <= i < |s| ensures IsSpace(s[i]) {
        if i < |s| - 1 {
          assert s[i] == rest[i];
        }
      }
    }
  }

  /** What `trim` leaves is empty exactly when `s` is all white space;
      otherwise it starts and ends with a character that is not white space. */
  lemma TrimBlank(s: string)
    ensures Trim(s) == [] <==> forall i | 0 <= i < |s| :: IsSpace(s[i])
    ensures Trim(s) != [] ==> !IsSpace(Trim(s)[0]) && !IsSpace(Trim(s)[|Trim(s)| - 1])
  {
    var t := TrimStart(s);
    TrimStartSpec(s);
    TrimEndSpec(t);
    if t != [] {
      assert t[0] == s[|s| - |t|];
    }
  }

  // ---------------------------------------------------------------------
  // Sequences
  // ---------------------------------------------------------------------

  /** `a` is obtained from `b` by deleting elements, keeping the order of the rest. */
  ghost predicate IsSubsequence<T>(a: seq<T>, b: seq<T>)
    decreases |b|
  {
    if a == [] then true
    else if b == [] then false
    else (a[0] == b[0] && IsSubsequence(a[1..], b[1..])) || IsSubsequence(a, b[1..])
  }

  /** `Array.prototype.filter`: the elements of `s` that satisfy `p`, in order. */
  function KeepWhere<T>(s: seq<T>, p: T -> bool): seq<T> {
    if s == [] then []
    else if p(s[0]) then [s[0]] + KeepWhere(s[1..], p)
    else KeepWhere(s[1..], p)
  }

  /** What filtering keeps: an order-preserving part of `s`, containing every
      element that satisfies `p` as often as `s` does, and nothing else. */
  lemma {:induction false} KeepWhereSpec<T(!new)>(s: seq<T>, p: T -> bool)
    ensures IsSubsequence(KeepWhere(s, p), s)
    ensures forall x :: x in KeepWhere(s, p) <==> x in s && p(x)
    ensures forall x :: multiset(KeepWhere(s, p))[x] == if p(x) then multiset(s)[x] else 0
  {
    if s != [] {
      KeepWhereSpec(s[1..], p);
      assert s == [s[0]] + s[1..];
      var rest := KeepWhere(s[1..], p);
      if p(s[0]) {
        assert ([s[0]] + rest)[1..] == rest;
      }
    }
  }

  /** Filtering a sequence whose every element passes gives it back whole. */
  lemma {:induction false} KeepWhereAll<T>(s: seq<T>, p: T -> bool)
    requires forall i | 0 <= i < |s| :: p(s[i])
    ensures KeepWhere(s, p) == s
  {
    if s != [] {
      KeepWhereAll(s[1..], p);
      assert s == [s[0]] + s[1..];
    }
  }

  /** Filtering a sequence none of whose elements passes gives the empty sequence. */
  lemma {:induction false} KeepWhereNone<T>(s: seq<T>, p: T -> bool)
    requires forall i | 0 <= i < |s| :: !p(s[i])
    ensures KeepWhere(s, p) == []
  {
    if s != [] {
      KeepWhereNone(s[1..], p);
    }
  }

  /** Filtering distributes over concatenation. */
  lemma {:induction false} KeepWhereAppend<T>(a: seq<T>, b: seq<T>, p: T -> bool)
    ensures KeepWhere(a + b, p) == KeepWhere(a, p) + KeepWhere(b, p)
  {
    if a == [] {
      assert a + b == b;
    } else {
      KeepWhereAppend(a[1..], b, p);
      assert (a + b)[0] == a[0] && (a + b)[1..] == a[1..] + b;
    }
  }

  /** A rejected head contributes nothing. */
  lemma KeepWhereSkipsRejected<T>(x: T, back: seq<T>, p: T -> bool)
    requires !p(x)
    ensures KeepWhere([x] + back, p) == KeepWhere(back, p)
  {
    assert ([x] + back)[0] == x && ([x] + back)[1..] == back;
  }

  /** When `p` rejects the element at `k` and accepts every other one, the
      filter removes exactly that position. */
  lemma {:induction false} KeepWhereDropsOne<T>(s: seq<T>, p: T -> bool, k: nat)
    requires k < |s| && !p(s[k])
    requires forall i | 0 <= i < |s| && i != k :: p(s[i])
    ensures KeepWhere(s, p) == s[..k] + s[k + 1..]
  {
    var front, back := s[..k], s[k + 1..];
    forall i | 0 <= i < |front| ensures p(front[i]) {
      assert front[i] == s[i];
    }
    forall i | 0 <= i < |back| ensures p(back[i]) {
      assert back[i] == s[k + 1 + i];
    }
    calc {
      KeepWhere(s, p);
      { assert s == front + ([s[k]] + back); }
      KeepWhere(front + ([s[k]] + back), p);
      { KeepWhereAppend(front, [s[k]] + back, p); }
      KeepWhere(front, p) + KeepWhere([s[k]] + back, p);
      { KeepWhereSkipsRejected(s[k], back, p); }
      KeepWhere(front, p) + KeepWhere(back, p);
      { KeepWhereAll(front, p); KeepWhereAll(back, p); }
      front + back;
    }
  }

  // ---------------------------------------------------------------------
  // Chips and names
  // ---------------------------------------------------------------------

  /** Some element of `s` carries name `name`. */
  ghost predicate HasName(s: seq<Chip>, name: string) {
    exists i | 0 <= i < |s| :: s[i].name == name
  }

  /** No two elements of `s` carry the same name. */
  ghost predicate DistinctNames(s: seq<Chip>) {
    forall i, j | 0 <= i < j < |s| :: s[i].name != s[j].name
  }

  /** No two elements of `s` carry the same id. */
  ghost predicate DistinctIds(s: seq<Chip>) {
    forall i, j | 0 <= i < j < |s| :: s[i].id != s[j].id
  }

  /** Every element of `s` is one of the fixed candidates. */
  ghost predicate FromItems(s: seq<Chip>) {
    forall i | 0 <= i < |s| :: s[i] in Items
  }

  /** No suggestion carries the name of a chip. */
  ghost predicate NoneChipped(suggestions: seq<Chip>, chips: seq<Chip>) {
    forall i, j | 0 <= i < |suggestions| && 0 <= j < |chips| :: suggestions[i].name != chips[j].name
  }

  /** `find(x => x.name === name)`: the first element carrying `name`, or
      nothing when no element carries it. */
  function FindByName(s: seq<Chip>, name: string): (r: Option<Chip>)
    ensures r.None? <==> !HasName(s, name)
    ensures r.Some? ==> exists i | 0 <= i < |s| ::
      s[i] == r.value && r.value.name == name && !HasName(s[..i], name)
  {
    if s == [] then None
    else if s[0].name == name then
      assert !HasName(s[..0], name);
      Some(s[0])
    else
      var r := FindByName(s[1..], name);
      assert HasName(s, name) ==> HasName(s[1..], name) by {
        if HasName(s, name) {
          var i :| 0 <= i < |s| && s[i].name == name;
          assert s[1..][i - 1] == s[i];
        }
      }
      assert r.Some? ==> exists i | 0 <= i < |s| ::
        s[i] == r.value && r.value.name == name && !HasName(s[..i], name) by {
        if r.Some? {
          var i :| 0 <= i < |s[1..]| && s[1..][i] == r.value && r.value.name == name
                   && !HasName(s[1..][..i], name);
          forall j | 0 <= j < i + 1 ensures s[j].name != name {
            if j > 0 {
              assert s[j] == s[1..][..i][j - 1];
            }
          }
          assert s[i + 1] == r.value;
        }
      }
      r
  }

  /** The suggestion filter's test for one candidate: its name contains the
      query, case-insensitively, and no chip carries exactly its name. */
  function Matches(query: string, chips: seq<Chip>): Chip -> bool {
    (item: Chip) => Includes(ToLower(item.name), ToLower(query)) && FindByName(chips, item.name).None?
  }

  /** The suggestions for `query`: the candidates of `items` whose name
      contains the query (ignoring case) and is not the name of a chip, in
      the order of `items`, each as often as it occurs there. */
  function Filter(items: seq<Chip>, query: string, chips: seq<Chip>): (r: seq<Chip>)
    ensures IsSubsequence(r, items)
    ensures forall x :: x in r <==>
      x in items && Includes(ToLower(x.name), ToLower(query)) && !HasName(chips, x.name)
    ensures forall x :: multiset(r)[x] ==
                        if Includes(ToLower(x.name), ToLower(query)) && !HasName(chips, x.name) then multiset(items)[x] else 0
    ensures NoneChipped(r, chips)
  {
    KeepWhereSpec(items, Matches(query, chips));
    KeepWhere(items, Matches(query, chips))
  }

  /** The test `chips.filter` applies when a chip with id `id` is deleted. */
  function OtherId(id: string): Chip -> bool {
    (c: Chip) => c.id != id
  }

  /** Removes every chip whose id is `id`, keeping the others in order. */
  function RemoveById(chips: seq<Chip>, id: string): (r: seq<Chip>)
    ensures IsSubsequence(r, chips)
    ensures forall x :: x in r <==> x in chips && x.id != id
    ensures forall x :: multiset(r)[x] == if x.id == id then 0 else multiset(chips)[x]
  {
    KeepWhereSpec(chips, OtherId(id));
    KeepWhere(chips, OtherId(id))
  }

  // ---------------------------------------------------------------------
  // Properties
  // ---------------------------------------------------------------------

  /** With an empty query every candidate matches, so the suggestions are
      the candidates minus those whose name is already a chip's. */
  lemma FilterEmptyQuery(items: seq<Chip>, chips: seq<Chip>)
    ensures IsSubsequence(Filter(items, "", chips), items)
    ensures forall x :: multiset(Filter(items, "", chips))[x] ==
                        if HasName(chips, x.name) then 0 else multiset(items)[x]
  {
    forall x: Chip ensures Includes(ToLower(x.name), ToLower("")) {
      assert OccursAt(ToLower(x.name), [], 0);
    }
  }

  /** Deleting by id never brings back a suggestion's name into the chips. */
  lemma {:induction false} RemoveKeepsNoneChipped(suggestions: seq<Chip>, chips: seq<Chip>, id: string)
    requires NoneChipped(suggestions, chips)
    ensures NoneChipped(suggestions, RemoveById(chips, id))
  {
    var r := RemoveById(chips, id);
    forall i, j | 0 <= i < |suggestions| && 0 <= j < |r|
      ensures suggestions[i].name != r[j].name
    {
      assert r[j] in chips;
      var k :| 0 <= k < |chips| && chips[k] == r[j];
    }
  }

  /** Filtering keeps names distinct. */
  lemma {:induction false} KeepWhereDistinctNames(s: seq<Chip>, p: Chip -> bool)
    requires DistinctNames(s)
    ensures DistinctNames(KeepWhere(s, p))
  {
    if s != [] {
      KeepWhereDistinctNames(s[1..], p);
      var rest := KeepWhere(s[1..], p);
      if p(s[0]) {
        var r := [s[0]] + rest;
        forall i, j | 0 <= i < j < |r| ensures r[i].name != r[j].name {
          if i == 0 {
            KeepWhereSpec(s[1..], p);
            assert r[j] == rest[j - 1] && rest[j - 1] in s[1..];
            var k :| 0 <= k < |s[1..]| && s[1..][k] == r[j];
            assert s[k + 1] == r[j];
          } else {
            assert r[i] == rest[i - 1] && r[j] == rest[j - 1];
          }
        }
      }
    }
  }

  /** Deleting chips keeps their names distinct. */
  lemma RemoveKeepsDistinctNames(chips: seq<Chip>, id: string)
    requires DistinctNames(chips)
    ensures DistinctNames(RemoveById(chips, id))
  {
    KeepWhereDistinctNames(chips, OtherId(id));
  }

  /** Committing a suggestion as a new chip keeps the chips' names distinct
      and the chips drawn from the candidates. */
  lemma CommitKeepsChipsDistinct(suggestions: seq<Chip>, chips: seq<Chip>, c: Chip)
    requires NoneChipped(suggestions, chips) && FromItems(suggestions)
    requires DistinctNames(chips) && FromItems(chips)
    requires c in suggestions
    ensures DistinctNames(chips + [c]) && FromItems(chips + [c])
  {
    var i :| 0 <= i < |suggestions| && suggestions[i] == c;
    assert forall j | 0 <= j < |chips| :: chips[j].name != suggestions[i].name;
  }

  /** No two candidates share an id. */
  lemma ItemIdsUnique()
    ensures forall i, j | 0 <= i < j < |Items| :: Items[i].id != Items[j].id
  {
  }

  /** Chips taken from the candidates with pairwise different names also
      have pairwise different ids. */
  lemma CandidateChipsHaveDistinctIds(chips: seq<Chip>)
    requires FromItems(chips) && DistinctNames(chips)
    ensures DistinctIds(chips)
  {
    ItemIdsUnique();
    forall i, j | 0 <= i < j < |chips| ensures chips[i].id != chips[j].id {
      var a :| 0 <= a < |Items| && Items[a] == chips[i];
      var b :| 0 <= b < |Items| && Items[b] == chips[j];
      if a != b {
        assert Items[a].id != Items[b].id;
      }
    }
  }

  /** With distinct ids, deleting the chip at position `k` by its id removes
      exactly that one chip and keeps the others in order. */
  lemma RemoveByIdDropsOne(chips: seq<Chip>, k: nat)
    requires DistinctIds(chips) && k < |chips|
    ensures RemoveById(chips, chips[k].id) == chips[..k] + chips[k + 1..]
  {
    var p := OtherId(chips[k].id);
    forall i | 0 <= i < |chips| && i != k ensures p(chips[i]) {
      if i < k {
        assert chips[i].id != chips[k].id;
      } else {
        assert chips[k].id != chips[i].id;
      }
    }
    KeepWhereDropsOne(chips, p, k);
  }

  /** From position `i` on, no "a" is directly followed by "l", in either case. */
  predicate NoAlFrom(s: string, i: nat)
    decreases |s| - i
  {
    i + 1 >= |s| || (!(LowerChar(s[i]) == 'a' && LowerChar(s[i + 1]) == 'l') && NoAlFrom(s, i + 1))
  }

  /** A name in which "a" is never directly followed by "l" does not contain "ali", ignoring case. */
  lemma {:induction false} NoAlExcludesAli(s: string)
    requires NoAlFrom(s, 0)
    ensures !Includes(ToLower(s), "ali")
  {
    var t := ToLower(s);
    forall i: nat | i <= |t| ensures !OccursAt(t, "ali", i) {
      NoAlAt(s, 0, i);
      if i + 3 <= |t| {
        assert t[i..i + 3][0] == t[i] && t[i..i + 3][1] == t[i + 1];
      }
    }
  }

  lemma {:induction false} NoAlAt(s: string, i: nat, j: nat)
    requires NoAlFrom(s, i) && i <= j
    ensures j + 1 < |s| ==> !(LowerChar(s[j]) == 'a' && LowerChar(s[j + 1]) == 'l')
    decreases j - i
  {
    if i < j && i + 1 < |s| {
      NoAlAt(s, i + 1, j);
    }
  }

  /** Only the first candidate's name has an "a" directly followed by "l". */
  lemma OnlyAliceHasAl()
    ensures forall k | 1 <= k < |Items| :: NoAlFrom(Items[k].name, 0)
  {
  }

  /** Of the candidates, only Alice Johnson's name contains "ali", ignoring case. */
  lemma OnlyAliceMatchesAli()
    ensures Includes(ToLower(Items[0].name), ToLower("ali"))
    ensures forall k | 1 <= k < |Items| :: !Includes(ToLower(Items[k].name), ToLower("ali"))
  {
    assert ToLower("ali") == "ali";
    assert OccursAt(ToLower(Items[0].name), "ali", 0);
    OnlyAliceHasAl();
    forall k | 1 <= k < |Items| ensures !Includes(ToLower(Items[k].name), "ali") {
      NoAlExcludesAli(Items[k].name);
    }
  }

  /** Filtering the candidates with "ali" and no chips suggests exactly Alice Johnson. */
  lemma FilterAli()
    ensures Filter(Items, "ali", []) == [Items[0]]
  {
    var p := Matches("ali", []);
    OnlyAliceMatchesAli();
    assert p(Items[0]);
    forall i | 0 <= i < |Items[1..]| ensures !p(Items[1..][i]) {
      assert Items[1..][i] == Items[i + 1];
    }
    KeepWhereNone(Items[1..], p);
    assert KeepWhere(Items, p) == [Items[0]] + KeepWhere(Items[1..], p);
  }

  /** Every candidate's name starts with an upper-case letter. */
  lemma CandidateNamesCapitalised()
    ensures forall k | 0 <= k < |Items| :: |Items[k].name| > 0 && 'A' <= Items[k].name[0] <= 'Z'
  {
  }

  /** Suggestions ignore case: "alice johnson" suggests Alice Johnson. */
  lemma LowerCaseQuerySuggestsAlice()
    ensures Items[0] in Filter(Items, "alice johnson", [])
  {
    assert ToLower(Items[0].name) == ToLower("alice johnson");
    assert OccursAt(ToLower(Items[0].name), ToLower("alice johnson"), 0);
  }

  /** No list of candidates holds a chip named "alice johnson": every
      candidate's name is capitalised. */
  lemma NoCandidateNamedLowerCase(s: seq<Chip>)
    requires FromItems(s)
    ensures FindByName(s, "alice johnson").None?
  {
    CandidateNamesCapitalised();
    forall i | 0 <= i < |s| ensures s[i].name != "alice johnson" {
      assert s[i] in Items;
    }
  }
}
