/**
 Identity normalisation of the email addresses (`unify_name` in hillary_pr.py),
 and the building of the `aliases` and `persons` lookup tables it consults.

 An address is lowercased (ASCII letters only), stripped of every `,` and `;`,
 and cut just before its first `@`. If what is left is a known alias, the
 alias's person name is returned instead.
 */
module Names {

  /** ASCII capital letter, the only characters this model lowercases. */
  predicate IsUpper(c: char) {
    'A' <= c <= 'Z'
  }

  function LowerChar(c: char): (r: char)
    ensures !IsUpper(r)
    ensures IsUpper(c) ==> r as int == c as int + 32
    ensures !IsUpper(c) ==> r == c
  {
    if IsUpper(c) then (c as int + ('a' as int - 'A' as int)) as char else c
  }

  /** `str.lower()`, restricted to ASCII. */
  function Lower(s: string): (r: string)
    ensures |r| == |s|
    ensures forall i :: 0 <= i < |s| ==> r[i] == LowerChar(s[i])
  {
    if s == [] then [] else [LowerChar(s[0])] + Lower(s[1..])
  }

  /** `s.replace(c, '')`: every occurrence of `c` deleted, the rest kept in order. */
  function Delete(s: string, c: char): (r: string)
    ensures forall x :: x in r <==> x in s && x != c
    ensures multiset(r) == multiset(s)[c := 0]
    ensures |r| == |s| - multiset(s)[c]
    ensures c !in s ==> r == s
  {
    if s == [] then []
    else
      assert s == [s[0]] + s[1..];
      (if s[0] == c then [] else [s[0]]) + Delete(s[1..], c)
  }

  /** Deleting works piece by piece, so the kept characters stay in their order. */
  lemma {:induction false} DeleteAppend(a: string, b: string, c: char)
    ensures Delete(a + b, c) == Delete(a, c) + Delete(b, c)
  {
    if a != [] {
      assert (a + b)[0] == a[0] && (a + b)[1..] == a[1..] + b;
      DeleteAppend(a[1..], b, c);
    } else {
      assert a + b == b;
    }
  }

  /** `s.split('@')[0]`: the text before the first `@`, or all of `s` when it has none. */
  function BeforeAt(s: string): (r: string)
    ensures '@' !in r
    ensures |r| <= |s| && r == s[..|r|]
    ensures |r| < |s| ==> s[|r|] == '@'
    ensures '@' !in s ==> r == s
  {
    if s == [] || s[0] == '@' then [] else [s[0]] + BeforeAt(s[1..])
  }

  /**
   Lines 30-33: the cleaned form of an address, before the alias lookup. It
   holds no ASCII capital, no `,`, no `;` and no `@`.
   */
  function Clean(name: string): (r: string)
    ensures Normal(r)
    ensures |r| <= |name|
  {
    CleaningStepsNormal(name);
    BeforeAt(Delete(Delete(Lower(name), ','), ';'))
  }

  /** A character that the cleaning steps neither change nor delete nor cut at. */
  predicate NormalChar(c: char) {
    !IsUpper(c) && c != ',' && c != ';' && c != '@'
  }

  predicate Normal(s: string) {
    forall i :: 0 <= i < |s| ==> NormalChar(s[i])
  }

  lemma NormalMembers(s: string)
    requires Normal(s)
    ensures forall c :: c in s ==> NormalChar(c)
  {
    forall c | c in s ensures NormalChar(c) {
      var i :| 0 <= i < |s| && s[i] == c;
    }
  }

  /** Every alias names a PersonId that `persons` knows; otherwise line 36 raises KeyError. */
  predicate Resolves(aliases: map<string, int>, persons: map<int, string>) {
    forall a :: a in aliases ==> aliases[a] in persons
  }

  /**
   `unify_name` (lines 28-38). An alias comes back as a person's name; any other
   address comes back normal, and is itself no alias.
   */
  function UnifyName(name: string, aliases: map<string, int>, persons: map<int, string>): (r: string)
    requires Resolves(aliases, persons)
    ensures Clean(name) in aliases ==> r in persons.Values
    ensures Clean(name) !in aliases ==> Normal(r) && r !in aliases
  {
    var key := Clean(name);
    if key in aliases then persons[aliases[key]] else key
  }

  /** Lowercasing, stripping and cutting leave no capital, `,`, `;` or `@`. */
  lemma CleaningStepsNormal(name: string)
    ensures Normal(BeforeAt(Delete(Delete(Lower(name), ','), ';')))
  {
    var low := Lower(name);
    var t := Delete(Delete(low, ','), ';');
    var r := BeforeAt(t);
    forall i | 0 <= i < |r| ensures NormalChar(r[i]) {
      assert r[i] == t[i];
      assert t[i] in t;
      assert t[i] in low;
      var j :| 0 <= j < |low| && low[j] == t[i];
      assert r[i] in r;
    }
  }

  lemma LowerNormal(s: string)
    requires Normal(s)
    ensures Lower(s) == s
  {
  }

  /**
   The cleaning steps leave a string unchanged exactly when it is already normal:
   the normal strings are the fixed points of `Clean`.
   */
  lemma CleanFixedPoints(s: string)
    ensures Clean(s) == s <==> Normal(s)
  {
    if Normal(s) {
      LowerNormal(s);
      NormalMembers(s);
      assert Delete(Delete(s, ','), ';') == s;
    }
  }

  /** Cleaning twice is cleaning once. */
  lemma CleanIdempotent(name: string)
    ensures Clean(Clean(name)) == Clean(name)
  {
    CleanFixedPoints(Clean(name));
  }

  lemma {:induction false} BeforeAtLower(s: string)
    ensures BeforeAt(Lower(s)) == Lower(BeforeAt(s))
  {
    if s != [] {
      assert Lower(s) == [LowerChar(s[0])] + Lower(s[1..]);
      BeforeAtLower(s[1..]);
    }
  }

  lemma DeleteCons(x: char, t: string, c: char)
    ensures x == c ==> Delete([x] + t, c) == Delete(t, c)
    ensures x != c ==> Delete([x] + t, c) == [x] + Delete(t, c)
  {
    assert ([x] + t)[1..] == t;
    assert [] + Delete(t, c) == Delete(t, c);
  }

  lemma BeforeAtCons(x: char, t: string)
    ensures BeforeAt([x] + t) == if x == '@' then [] else [x] + BeforeAt(t)
  {
    assert ([x] + t)[1..] == t;
  }

  lemma {:induction false} BeforeAtDelete(s: string, c: char)
    requires c != '@'
    ensures BeforeAt(Delete(s, c)) == Delete(BeforeAt(s), c)
  {
    if s != [] {
      var x, t := s[0], s[1..];
      assert s == [x] + t;
      DeleteCons(x, t, c);
      BeforeAtCons(x, t);
      if x == '@' {
        calc {
          BeforeAt(Delete(s, c));
          BeforeAt([x] + Delete(t, c));
          { BeforeAtCons(x, Delete(t, c)); }
          [];
        }
      } else if x == c {
        calc {
          BeforeAt(Delete(s, c));
          BeforeAt(Delete(t, c));
          { BeforeAtDelete(t, c); }
          Delete(BeforeAt(t), c);
          { DeleteCons(x, BeforeAt(t), c); }
          Delete([x] + BeforeAt(t), c);
        }
      } else {
        calc {
          BeforeAt(Delete(s, c));
          BeforeAt([x] + Delete(t, c));
          { BeforeAtCons(x, Delete(t, c)); }
          [x] + BeforeAt(Delete(t, c));
          { BeforeAtDelete(t, c); }
          [x] + Delete(BeforeAt(t), c);
          { DeleteCons(x, BeforeAt(t), c); }
          Delete([x] + BeforeAt(t), c);
        }
      }
    }
  }

  /**
   An independent description of the cleaned address: cutting at the first `@`
   of the raw address and then lowercasing and stripping gives the same text as
   the source's order (lowercase, strip, then cut).
   */
  lemma CleanCutFirst(name: string)
    ensures Clean(name) == Delete(Delete(Lower(BeforeAt(name)), ','), ';')
  {
    var low := Lower(name);
    BeforeAtDelete(Delete(low, ','), ';');
    BeforeAtDelete(low, ',');
    BeforeAtLower(name);
  }

  /**
   Lines 30-33 and 37-38: an address that is not an alias comes back as its
   lowercased, stripped text cut just before the first `@` (all of it when there
   is no `@`), and holds no `,`, `;` or `@`.
   */
  lemma UnaliasedResult(name: string, aliases: map<string, int>, persons: map<int, string>)
    requires Resolves(aliases, persons)
    requires Clean(name) !in aliases
    ensures var stripped := Delete(Delete(Lower(name), ','), ';');
            var r := UnifyName(name, aliases, persons);
            && r == stripped[..|r|]
            && (|r| < |stripped| ==> stripped[|r|] == '@')
            && ',' !in r && ';' !in r && '@' !in r
  {
    NormalMembers(Clean(name));
  }

  /** Lines 35-36: an alias is replaced by the name of the person it belongs to. */
  lemma AliasedResult(name: string, aliases: map<string, int>, persons: map<int, string>)
    requires Resolves(aliases, persons)
    requires Clean(name) in aliases
    ensures UnifyName(name, aliases, persons) == persons[aliases[Clean(name)]]
  {
  }

  /** On the non-alias branch a second normalisation changes nothing. */
  lemma UnifyNameIdempotent(name: string, aliases: map<string, int>, persons: map<int, string>)
    requires Resolves(aliases, persons)
    requires Clean(name) !in aliases
    ensures UnifyName(UnifyName(name, aliases, persons), aliases, persons)
         == UnifyName(name, aliases, persons)
  {
    CleanIdempotent(name);
  }

  /** No later row carries the same key as row `i`. */
  predicate LastForKey<K(==), V>(rows: seq<(K, V)>, i: int)
    requires 0 <= i < |rows|
  {
    forall j :: i < j < |rows| ==> rows[j].0 != rows[i].0
  }

  /**
   Lines 17-19 and 22-24: a dictionary filled row by row, so that a later row
   with the same key overwrites an earlier one.
   */
  method BuildLookup<K(==), V>(rows: seq<(K, V)>) returns (d: map<K, V>)
    ensures d.Keys == set r | r in rows :: r.0
    ensures forall i :: 0 <= i < |rows| && LastForKey(rows, i) ==> d[rows[i].0] == rows[i].1
  {
    d := map[];
    for n := 0 to |rows|
      invariant d.Keys == set r | r in rows[..n] :: r.0
      invariant forall i :: 0 <= i < n && (forall j :: i < j < n ==> rows[j].0 != rows[i].0)
                  ==> d[rows[i].0] == rows[i].1
    {
      assert rows[..n + 1] == rows[..n] + [rows[n]];
      d := d[rows[n].0 := rows[n].1];
    }
    assert rows[..|rows|] == rows;
  }
}
