/**
 * The parts of java.lang.String that the download service relies on.
 * A Java string is a sequence of UTF-16 code units, and that is how it is
 * modelled here: comparison, containment and splitting all work unit by unit.
 */
module JavaLang {

  /** One UTF-16 code unit, the element of a Java string. */
  type CodeUnit = u: int | 0 <= u < 0x1_0000

  /** A java.lang.String. */
  type JString = seq<CodeUnit>

  /** One byte of a stream, as InputStream.read() returns it when it is not -1. */
  type Byte = b: int | 0 <= b < 0x100

  /** The separator of identifier segments and of archive entry paths. */
  const Slash: CodeUnit := 0x2F

  predicate IsAscii(s: string) {
    forall i | 0 <= i < |s| :: s[i] as int < 0x80
  }

  /** The code units of an ASCII string literal of the Java source. */
  function Ascii(s: string): JString
    requires IsAscii(s)
  {
    seq(|s|, i requires 0 <= i < |s| => s[i] as int)
  }

  // ---------------------------------------------------------------------------
  // compareTo

  /** The strings first differ at index k: they agree before it and both have a unit there. */
  predicate DifferAt(a: JString, b: JString, k: int) {
    0 <= k < |a| && k < |b| && a[..k] == b[..k] && a[k] != b[k]
  }

  /**
   * String.compareTo, unit by unit: the difference of the units at the
   * first index where the strings differ, or of the lengths when one is a
   * prefix of the other. It is zero exactly for equal strings.
   */
  function CompareTo(a: JString, b: JString): (r: int)
    ensures r == 0 <==> a == b
  {
    if a == [] || b == [] then |a| - |b|
    else if a[0] != b[0] then a[0] as int - b[0] as int
    else
      assert a == b <==> a[1..] == b[1..] by {
        assert a == [a[0]] + a[1..] && b == [b[0]] + b[1..];
      }
      CompareTo(a[1..], b[1..])
  }

  /**
   * compareTo as the JDK documents it: when one string is a prefix of the
   * other, the difference of the lengths; otherwise the difference of the
   * units at the first index where they differ.
   */
  lemma {:induction false} CompareToMeaning(a: JString, b: JString)
    ensures StartsWith(a, b) || StartsWith(b, a) ==> CompareTo(a, b) == |a| - |b|
    ensures !(StartsWith(a, b) || StartsWith(b, a)) ==>
      exists k :: DifferAt(a, b, k) && CompareTo(a, b) == a[k] as int - b[k] as int
  {
    if a == [] || b == [] {
    } else if a[0] != b[0] {
      assert DifferAt(a, b, 0);
    } else {
      CompareToMeaning(a[1..], b[1..]);
      assert a == [a[0]] + a[1..] && b == [b[0]] + b[1..];
      assert StartsWith(a, b) <==> StartsWith(a[1..], b[1..]);
      assert StartsWith(b, a) <==> StartsWith(b[1..], a[1..]);
      if !(StartsWith(a, b) || StartsWith(b, a)) {
        var k :| DifferAt(a[1..], b[1..], k) && CompareTo(a[1..], b[1..]) == a[1..][k] as int - b[1..][k] as int;
        assert a[..k + 1] == [a[0]] + a[1..][..k] && b[..k + 1] == [b[0]] + b[1..][..k];
        assert DifferAt(a, b, k + 1);
      }
    }
  }

  /** Swapping the operands negates the comparison. */
  lemma {:induction false} CompareToFlips(a: JString, b: JString)
    ensures CompareTo(b, a) == -CompareTo(a, b)
  {
    if a != [] && b != [] && a[0] == b[0] {
      CompareToFlips(a[1..], b[1..]);
    }
  }

  /** "At least" in the order of compareTo is transitive. */
  lemma {:induction false} CompareToTransitive(a: JString, b: JString, c: JString)
    requires CompareTo(a, b) >= 0 && CompareTo(b, c) >= 0
    ensures CompareTo(a, c) >= 0
  {
    if a != [] && b != [] && c != [] && a[0] == b[0] && b[0] == c[0] {
      CompareToTransitive(a[1..], b[1..], c[1..]);
    }
  }

  // ---------------------------------------------------------------------------
  // startsWith and contains

  /** String.startsWith. */
  predicate StartsWith(s: JString, prefix: JString) {
    |prefix| <= |s| && s[..|prefix|] == prefix
  }

  /** t occurs in s starting at index k. */
  predicate OccursAt(s: JString, t: JString, k: int) {
    0 <= k && k + |t| <= |s| && s[k..k + |t|] == t
  }

  /**
   * String.contains: s starts with t, or its rest contains t. This is
   * exactly "t occurs in s at some index", as indexOf(t) >= 0 states it.
   */
  function Contains(s: JString, t: JString): (r: bool)
    ensures r <==> exists k :: OccursAt(s, t, k)
    decreases |s|
  {
    if StartsWith(s, t) then
      assert OccursAt(s, t, 0);
      true
    else if s == [] then
      false
    else
      var r := Contains(s[1..], t);
      assert (exists k :: OccursAt(s, t, k)) ==> r by {
        if exists k :: OccursAt(s, t, k) {
          var k :| OccursAt(s, t, k);
          assert s[1..][k - 1..k - 1 + |t|] == s[k..k + |t|];
          assert OccursAt(s[1..], t, k - 1);
        }
      }
      assert r ==> exists k :: OccursAt(s, t, k) by {
        if r {
          var k :| OccursAt(s[1..], t, k);
          assert s[k + 1..k + 1 + |t|] == s[1..][k..k + |t|];
          assert OccursAt(s, t, k + 1);
        }
      }
      r
  }

  /** A string contains every infix of itself: the match is a substring search, not an equality. */
  lemma ContainsInfix(pre: JString, t: JString, post: JString)
    ensures Contains(pre + t + post, t)
  {
    var s := pre + t + post;
    assert s[|pre|..|pre| + |t|] == t;
    assert OccursAt(s, t, |pre|);
  }

  // ---------------------------------------------------------------------------
  // split

  /**
   * The fields of s between occurrences of sep, trailing empty fields
   * included: what String.split would return before it drops them.
   */
  function Fields(s: JString, sep: CodeUnit): (r: seq<JString>)
    ensures |r| >= 1
    decreases |s|
  {
    if s == [] then [[]]
    else
      var rest := Fields(s[1..], sep);
      if s[0] == sep then [[]] + rest
      else [[s[0]] + rest[0]] + rest[1..]
  }

  /** The fields glued back together with sep between them. */
  function Join(fields: seq<JString>, sep: CodeUnit): JString
    requires |fields| >= 1
  {
    if |fields| == 1 then fields[0] else fields[0] + [sep] + Join(fields[1..], sep)
  }

  /** Splitting loses nothing: joining the fields gives back s, and no field holds the separator. */
  lemma {:induction false} FieldsJoin(s: JString, sep: CodeUnit)
    ensures Join(Fields(s, sep), sep) == s
    ensures forall f | f in Fields(s, sep) :: sep !in f
  {
    if s != [] {
      var rest := Fields(s[1..], sep);
      FieldsJoin(s[1..], sep);
      if s[0] == sep {
        assert Fields(s, sep)[1..] == rest;
        assert s == [sep] + s[1..];
      } else {
        var r := Fields(s, sep);
        assert r[1..] == rest[1..];
        assert Join(r, sep) == s by {
          if |rest| > 1 {
            assert Join(rest, sep) == rest[0] + [sep] + Join(rest[1..], sep);
            assert Join(r, sep) == [s[0]] + rest[0] + [sep] + Join(rest[1..], sep);
          }
          assert s == [s[0]] + s[1..];
        }
        forall f | f in r ensures sep !in f {
          if f == r[0] {
            assert f == [s[0]] + rest[0];
          } else {
            assert f in rest;
          }
        }
      }
    }
  }

  /** A leading field a, when it holds no separator, comes off as the first field. */
  lemma {:induction false} FieldsConcat(a: JString, sep: CodeUnit, b: JString)
    requires sep !in a
    ensures Fields(a + [sep] + b, sep) == [a] + Fields(b, sep)
  {
    var s := a + [sep] + b;
    if a != [] {
      assert s[1..] == a[1..] + [sep] + b;
      FieldsConcat(a[1..], sep, b);
      assert a == [a[0]] + a[1..];
    } else {
      assert s[1..] == b;
    }
  }

  /** The fields up to the last non-empty one (String.split with limit 0 drops trailing empty strings). */
  function StripTrailingEmpty(fields: seq<JString>): seq<JString>
  {
    if fields != [] && fields[|fields| - 1] == [] then StripTrailingEmpty(fields[..|fields| - 1])
    else fields
  }

  /**
   * StripTrailingEmpty keeps a prefix of the fields, drops only empty ones,
   * and keeps index k exactly when some field at k or later is non-empty.
   */
  lemma {:induction false} StripTrailingEmptyKeeps(fields: seq<JString>)
    ensures var r := StripTrailingEmpty(fields);
      && |r| <= |fields| && r == fields[..|r|]
      && (forall j | |r| <= j < |fields| :: fields[j] == [])
      && (r != [] ==> r[|r| - 1] != [])
  {
    if fields != [] && fields[|fields| - 1] == [] {
      StripTrailingEmptyKeeps(fields[..|fields| - 1]);
    }
  }

  /**
   * String.split(regex) for a one-character regex that is not a
   * metacharacter, with no limit: a string without the separator comes back
   * whole; otherwise its fields, minus the trailing empty ones. Either way
   * the pieces are the leading fields of s, none holds the separator, only
   * empty fields are dropped, and the last piece of a non-empty string is
   * non-empty. A string without the separator, the empty string included,
   * comes back as the one-element array of itself.
   */
  function Split(s: JString, sep: CodeUnit): (r: seq<JString>)
    ensures |r| <= |Fields(s, sep)| && r == Fields(s, sep)[..|r|]
    ensures forall j | |r| <= j < |Fields(s, sep)| :: Fields(s, sep)[j] == []
    ensures forall f | f in r :: sep !in f
    ensures s != [] && r != [] ==> r[|r| - 1] != []
    ensures sep !in s ==> r == [s]
  {
    FieldsJoin(s, sep);
    if sep !in s then
      FieldsWithoutSeparator(s, sep);
      [s]
    else
      StripTrailingEmptyKeeps(Fields(s, sep));
      StripTrailingEmpty(Fields(s, sep))
  }

  /** A string without the separator is its own single field. */
  lemma {:induction false} FieldsWithoutSeparator(s: JString, sep: CodeUnit)
    requires sep !in s
    ensures Fields(s, sep) == [s]
  {
    if s != [] {
      FieldsWithoutSeparator(s[1..], sep);
      assert s == [s[0]] + s[1..];
    }
  }

  /**
   * Split(s, sep) has an element at index k exactly when some field of s at
   * index k or later is non-empty, and that element is the k-th field. (The
   * one exception is the empty string, which splits into one empty string.)
   */
  lemma SplitIndex(s: JString, sep: CodeUnit, k: nat)
    requires s != [] || k > 0
    ensures k < |Split(s, sep)| <==> exists j :: k <= j < |Fields(s, sep)| && Fields(s, sep)[j] != []
    ensures k < |Split(s, sep)| ==> Split(s, sep)[k] == Fields(s, sep)[k]
  {
    var fs := Fields(s, sep);
    if sep !in s {
      FieldsWithoutSeparator(s, sep);
      if k == 0 {
        assert fs[0] != [];
      }
    } else {
      StripTrailingEmptyKeeps(fs);
      var r := StripTrailingEmpty(fs);
      assert Split(s, sep) == r;
      if k < |r| {
        assert fs[|r| - 1] == r[|r| - 1];
        assert k <= |r| - 1 < |fs| && fs[|r| - 1] != [];
        assert exists j :: k <= j < |fs| && fs[j] != [];
      }
    }
  }
}
