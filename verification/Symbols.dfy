/** Names as the descriptor index orders and relates them. A char stands for one byte of a std::string. */
module Symbols {

  /** The order of std::map<std::string, ...>. */
  predicate Less(a: string, b: string)
  {
    b != "" && (a == "" || a[0] < b[0] || (a[0] == b[0] && Less(a[1..], b[1..])))
  }

  lemma {:induction false} LessIsTotal(a: string, b: string)
    ensures Less(a, b) || a == b || Less(b, a)
    ensures !(Less(a, b) && Less(b, a))
    ensures !Less(a, a)
  {
    if a != "" && b != "" && a[0] == b[0] {
      LessIsTotal(a[1..], b[1..]);
      assert a[1..] == b[1..] ==> a == [a[0]] + a[1..] == [b[0]] + b[1..] == b;
    }
    if a == "" {
    } else {
      LessIsTotal(a[1..], a[1..]);
    }
  }

  lemma {:induction false} LessIsTransitive(a: string, b: string, c: string)
    requires Less(a, b) && Less(b, c)
    ensures Less(a, c)
  {
    if a != "" && a[0] == b[0] == c[0] {
      LessIsTransitive(a[1..], b[1..], c[1..]);
    }
  }

  /** The order is lexicographic: the first difference decides, and a name comes after its beginnings. */
  lemma {:induction false} LessIsLexicographic(a: string, b: string)
    ensures Less(a, b) <==>
      (a < b) || exists k :: 0 <= k < |a| && k < |b| && a[..k] == b[..k] && a[k] < b[k]
  {
    if a == "" || b == "" {
    } else {
      LessIsLexicographic(a[1..], b[1..]);
      var x, y := a[1..], b[1..];
      assert a == [a[0]] + x && b == [b[0]] + y;
      if a[0] == b[0] {
        if k :| 0 <= k < |x| && k < |y| && x[..k] == y[..k] && x[k] < y[k] {
          assert a[..k + 1] == [a[0]] + x[..k] && b[..k + 1] == [b[0]] + y[..k];
        }
        if k :| 0 <= k < |a| && k < |b| && a[..k] == b[..k] && a[k] < b[k] {
          assert k > 0 && x[..k - 1] == a[..k][1..] && y[..k - 1] == b[..k][1..] && x[k - 1] < y[k - 1];
        }
      } else if a[0] < b[0] {
        assert a[..0] == b[..0];
      } else {
        forall k | 0 < k < |a| && k < |b|
          ensures a[..k] != b[..k]
        {
          assert a[..k][0] != b[..k][0];
        }
      }
    }
  }

  /** Letters, digits, '_' and '.': of these, '.' comes first. */
  predicate ValidChar(c: char)
  {
    c == '.' || c == '_' || '0' <= c <= '9' || 'A' <= c <= 'Z' || 'a' <= c <= 'z'
  }

  predicate ValidName(name: string)
  {
    forall i | 0 <= i < |name| :: ValidChar(name[i])
  }

  /** The arguments are equal, or `parent` is a dotted ancestor of `name`. */
  predicate IsSubSymbol(parent: string, name: string)
  {
    parent == name || (|parent| < |name| && parent <= name && name[|parent|] == '.')
  }

  /** The components of a name with one more char in front. */
  function WithChar(c: char, rest: seq<string>): seq<string>
    requires rest != []
  {
    if c == '.' then [""] + rest else [[c] + rest[0]] + rest[1..]
  }

  /** The parts between the dots. */
  function Components(s: string): (r: seq<string>)
    ensures |r| >= 1
  {
    if s == "" then [""] else WithChar(s[0], Components(s[1..]))
  }

  /** What the prefix-and-dot test means: the components of one name begin those of the other. */
  lemma {:induction false} SubSymbolIsComponentPrefix(parent: string, name: string)
    ensures IsSubSymbol(parent, name) <==> Components(parent) <= Components(name)
  {
    if parent == "" || name == "" {
      EmptyCase(parent, name);
    } else {
      hide IsSubSymbol, WithChar;
      SubSymbolIsComponentPrefix(parent[1..], name[1..]);
      SubSymbolWithChar(parent, name);
      PrefixWithChar(parent[0], Components(parent[1..]), name[0], Components(name[1..]));
    }
  }

  lemma EmptyCase(parent: string, name: string)
    requires parent == "" || name == ""
    ensures IsSubSymbol(parent, name) <==> Components(parent) <= Components(name)
  {
    if name == "" {
      assert Components(name) == [""];
    }
  }

  lemma SubSymbolWithChar(parent: string, name: string)
    requires parent != "" && name != ""
    ensures IsSubSymbol(parent, name) <==> parent[0] == name[0] && IsSubSymbol(parent[1..], name[1..])
  {
    assert parent == [parent[0]] + parent[1..] && name == [name[0]] + name[1..];
    PrefixWithHead(parent[0], parent[1..], name[0], name[1..]);
  }

  lemma PrefixWithChar(c: char, p: seq<string>, d: char, n: seq<string>)
    requires p != [] && n != []
    ensures WithChar(c, p) <= WithChar(d, n) <==> c == d && p <= n
  {
    if c == '.' || d == '.' {
      var x, y := WithChar(c, p), WithChar(d, n);
      if c == d {
        PrefixWithHead("", p, "", n);
      } else {
        assert |x[0]| == 0 <==> |y[0]| > 0;
      }
    } else {
      PrefixWithHead([c] + p[0], p[1..], [d] + n[0], n[1..]);
      PrefixWithHead(p[0], p[1..], n[0], n[1..]);
      assert p == [p[0]] + p[1..] && n == [n[0]] + n[1..];
      SameHead(c, p[0], d, n[0]);
    }
  }

  lemma SameHead(c: char, a: string, d: char, b: string)
    ensures [c] + a == [d] + b <==> c == d && a == b
  {
    assert ([c] + a)[0] == c && ([c] + a)[1..] == a;
    assert ([d] + b)[0] == d && ([d] + b)[1..] == b;
  }

  lemma PrefixWithHead<T>(x: T, p: seq<T>, y: T, n: seq<T>)
    ensures [x] + p <= [y] + n <==> x == y && p <= n
  {
    var p', n' := [x] + p, [y] + n;
    if p' <= n' {
      assert p'[0] == n'[0];
      assert p == p'[1..] <= n'[1..] == n;
    }
  }

  /** An ancestor never sorts after its descendant. */
  lemma {:induction false} AncestorNotAfter(parent: string, name: string)
    requires IsSubSymbol(parent, name)
    ensures parent == name || Less(parent, name)
  {
    if parent != "" && parent != name {
      assert parent[1..] == name[1..][..|parent| - 1];
      AncestorNotAfter(parent[1..], name[1..]);
      assert parent == [parent[0]] + parent[1..];
      assert name == [name[0]] + name[1..];
    }
  }

  /** A valid name that sorts between an ancestor and any descendant of it is a descendant too: '.' sorts first. */
  lemma {:induction false} BetweenIsDescendant(parent: string, found: string, name: string)
    requires IsSubSymbol(parent, name) && ValidName(found)
    requires Less(parent, found) && (found == name || Less(found, name))
    ensures IsSubSymbol(parent, found)
  {
    if parent != "" && found != name {
      if parent == name {
        LessIsTotal(found, name);
      } else {
        assert parent[0] == found[0] == name[0];
        assert parent[1..] == name[1..][..|parent| - 1];
        BetweenIsDescendant(parent[1..], found[1..], name[1..]);
        assert parent == [parent[0]] + parent[1..];
        assert found == [found[0]] + found[1..];
      }
    } else if parent == "" && found != name {
      assert found[0] <= '.';
      assert ValidChar(found[0]);
    }
  }

  /** Every ancestor of a valid name is valid. */
  lemma AncestorIsValid(parent: string, name: string)
    requires IsSubSymbol(parent, name) && ValidName(name)
    ensures ValidName(parent)
  {
    forall i | 0 <= i < |parent|
      ensures ValidChar(parent[i])
    {
      assert parent[i] == name[i];
    }
  }
}
