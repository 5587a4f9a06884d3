/**
 * The string-keyed algorithm factory: `createAlgorithm(name)` upper-cases
 * the name one character at a time and returns the algorithm whose name it
 * is, or nothing for an unknown name.
 */
module Factory {
  import opened Text

  /** The five algorithms the factory knows. */
  datatype Kind = Euler | Mst | Scc | MaxFlow | MaxClique

  /** `name()` of each algorithm class. */
  function Name(k: Kind): string {
    match k
    case Euler => "EULER"
    case Mst => "MST"
    case Scc => "SCC"
    case MaxFlow => "MAXFLOW"
    case MaxClique => "MAXCLIQUE"
  }

  predicate IsLower(c: char) {
    'a' <= c <= 'z'
  }

  /** `std::toupper` in the "C" locale: only the 26 lower-case ASCII letters change. */
  function UpperChar(c: char): (r: char)
    ensures IsLower(c) ==> r as int == c as int - 32
    ensures !IsLower(c) ==> r == c
  {
    if IsLower(c) then (c as int - 32) as char else c
  }

  /** The upper-cased copy of a string, character by character. */
  function Upper(s: string): (r: string)
    ensures |r| == |s|
    ensures forall i :: 0 <= i < |s| ==> r[i] == UpperChar(s[i])
  {
    if s == [] then [] else Upper(s[..|s| - 1]) + [UpperChar(s[|s| - 1])]
  }

  /** Two strings that differ at most in the case of ASCII letters. */
  predicate SameLetters(a: string, b: string) {
    && |a| == |b|
    && forall i :: 0 <= i < |a| ==>
         a[i] == b[i] || (IsLower(a[i]) && b[i] as int == a[i] as int - 32)
         || (IsLower(b[i]) && a[i] as int == b[i] as int - 32)
  }

  /** The if-chain on the upper-cased name. */
  function Lookup(upper: string): (r: Option<Kind>)
    ensures r.Some? ==> Name(r.value) == upper
  {
    if upper == "EULER" then Some(Euler)
    else if upper == "MST" then Some(Mst)
    else if upper == "SCC" then Some(Scc)
    else if upper == "MAXFLOW" then Some(MaxFlow)
    else if upper == "MAXCLIQUE" then Some(MaxClique)
    else None
  }

  /** The meaning of `createAlgorithm(name)`, with null as None. */
  function Create(name: string): Option<Kind> {
    Lookup(Upper(name))
  }

  /** The loop that builds `upper` by pushing `toupper(c)` for every character. */
  method ToUpper(name: string) returns (upper: string)
    ensures |upper| == |name|
    ensures forall i :: 0 <= i < |name| ==> upper[i] == UpperChar(name[i])
    ensures upper == Upper(name)
  {
    upper := [];
    for i := 0 to |name|
      invariant upper == Upper(name[..i])
    {
      assert name[..i + 1][..i] == name[..i];
      upper := upper + [UpperChar(name[i])];
    }
    assert name[..|name|] == name;
  }

  /** `createAlgorithm`: upper-case, then dispatch on the five names. */
  method CreateAlgorithm(name: string) returns (r: Option<Kind>)
    ensures r.Some? <==> exists k :: Name(k) == Upper(name)
    ensures forall k :: r == Some(k) <==> Name(k) == Upper(name)
    ensures r == Create(name)
  {
    var upper := ToUpper(name);
    if upper == "EULER" {
      r := Some(Euler);
    } else if upper == "MST" {
      r := Some(Mst);
    } else if upper == "SCC" {
      r := Some(Scc);
    } else if upper == "MAXFLOW" {
      r := Some(MaxFlow);
    } else if upper == "MAXCLIQUE" {
      r := Some(MaxClique);
    } else {
      r := None;
    }
    LookupFindsName(upper);
  }

  /** Each algorithm has its own name. */
  lemma NamesDistinct(j: Kind, k: Kind)
    ensures Name(j) == Name(k) <==> j == k
  {
    if j != k {
      match j
      case Euler => assert Name(j)[0] == 'E' && Name(k)[0] != 'E';
      case Mst => assert |Name(j)| == 3 && Name(j)[1] == 'S';
      case Scc => assert |Name(j)| == 3 && Name(j)[1] == 'C';
      case MaxFlow => assert Name(j)[3] == 'F';
      case MaxClique => assert Name(j)[3] == 'C';
    }
  }

  /** The lookup returns an algorithm exactly for its name, and nothing for any other string. */
  lemma LookupFindsName(upper: string)
    ensures forall k :: Lookup(upper) == Some(k) <==> Name(k) == upper
    ensures Lookup(upper).None? <==> forall k :: Name(k) != upper
  {
    forall k ensures Lookup(upper) == Some(k) <==> Name(k) == upper {
      if Name(k) == upper {
        match k
        case Euler =>
        case Mst =>
        case Scc =>
        case MaxFlow =>
        case MaxClique =>
      }
      if Lookup(upper) == Some(k) {
        assert Name(k) == upper;
      }
    }
    if Lookup(upper).Some? {
      assert Name(Lookup(upper).value) == upper;
    }
  }

  /** A name spelled with any mix of letter cases finds the same algorithm. */
  lemma CaseInsensitive(a: string, b: string)
    requires SameLetters(a, b)
    ensures Upper(a) == Upper(b)
    ensures Create(a) == Create(b)
  {
    forall i | 0 <= i < |a| ensures Upper(a)[i] == Upper(b)[i] {
    }
  }

  /** Upper-casing twice changes nothing more. */
  lemma UpperIdempotent(s: string)
    ensures Upper(Upper(s)) == Upper(s)
  {
    forall i | 0 <= i < |s| ensures Upper(Upper(s))[i] == Upper(s)[i] {
    }
  }

  /** A non-null result's name() is the upper-cased request; the upper-cased request itself finds it. */
  lemma CreatedName(name: string, k: Kind)
    ensures Create(name) == Some(k) <==> Name(k) == Upper(name)
    ensures Create(Name(k)) == Some(k)
  {
    LookupFindsName(Upper(name));
    UpperOfName(k);
    LookupFindsName(Name(k));
  }

  /** The algorithm names are already upper case. */
  lemma UpperOfName(k: Kind)
    ensures Upper(Name(k)) == Name(k)
  {
    var s := Name(k);
    forall i | 0 <= i < |s| ensures !IsLower(s[i]) {
    }
  }
}
