/** An e-mail address of letter.me (domain/models/address.go): the structural
    check and the domain accessor.  A char stands for one octet. */
module Address {
  import opened Outcomes

  type Address = string

  /** Why `Validate` rejects an address; both wrap the address itself. */
  datatype AddressError = LengthOutOfRange(address: string) | NotMatching(address: string)

  /** The text of the wrapped error: "address '<a>' is not valid: <cause>". */
  function Message(e: AddressError): string
  {
    match e
    case LengthOutOfRange(a) => "address '" + a + "' is not valid: length must be between 4 and 253"
    case NotMatching(a) => "address '" + a + "' is not valid: value is not valid"
  }

  const MinLength: nat := 4
  const MaxLength: nat := 253

  predicate IsAlnum(c: char)
  {
    ('a' <= c <= 'z') || ('A' <= c <= 'Z') || ('0' <= c <= '9')
  }

  /** The characters the local part may use: letters, digits and .!#$%&'*+/=?^_`{|}~- */
  predicate IsLocalChar(c: char)
  {
    IsAlnum(c) || c in ".!#$%&'*+/=?^_`{|}~-"
  }

  /** One domain label: 1 to 63 letters, digits or hyphens, starting and ending
      with a letter or digit. */
  predicate IsLabel(l: string)
  {
    1 <= |l| <= 63 && IsAlnum(l[0]) && IsAlnum(l[|l| - 1])
    && forall i :: 0 < i < |l| - 1 ==> IsAlnum(l[i]) || l[i] == '-'
  }

  /** Index of the first `c` in `s`. */
  function IndexOf(s: string, c: char): (i: nat)
    requires c in s
    ensures i < |s| && s[i] == c && c !in s[..i]
  {
    if s[0] == c then 0 else 1 + IndexOf(s[1..], c)
  }

  /** One or more labels separated by single dots. */
  predicate IsDomainPart(d: string)
    decreases |d|
  {
    if '.' in d then
      var i := IndexOf(d, '.');
      IsLabel(d[..i]) && IsDomainPart(d[i + 1..])
    else
      IsLabel(d)
  }

  /** The anchored pattern of address.go line 12: a non-empty local part, one
      '@', then a dotted sequence of labels. */
  predicate MatchesPattern(s: string)
  {
    exists k :: 0 < k < |s| && s[k] == '@' && (forall j :: 0 <= j < k ==> IsLocalChar(s[j])) && IsDomainPart(s[k + 1..])
  }

  /** Address.Validate: the length test runs first, then the pattern. */
  function Validate(a: Address): (r: Option<AddressError>)
    ensures r == None <==> MinLength <= |a| <= MaxLength && MatchesPattern(a)
    ensures r == Some(LengthOutOfRange(a)) <==> !(MinLength <= |a| <= MaxLength)
    ensures r.Some? ==> r.value.address == a
  {
    if |a| < MinLength || |a| > MaxLength then Some(LengthOutOfRange(a))
    else if !MatchesPattern(a) then Some(NotMatching(a))
    else None
  }

  /** Number of occurrences of `c` in `s`. */
  function Count(s: string, c: char): nat
  {
    if s == [] then 0 else (if s[0] == c then 1 else 0) + Count(s[1..], c)
  }

  /** strings.Split with a one-character separator. */
  function Split(s: string, c: char): (parts: seq<string>)
    ensures |parts| >= 1
    decreases |s|
  {
    if c in s then
      var i := IndexOf(s, c);
      [s[..i]] + Split(s[i + 1..], c)
    else
      [s]
  }

  /** strings.Join with a one-character separator: the inverse of Split. */
  function Join(parts: seq<string>, c: char): string
    requires |parts| >= 1
  {
    if |parts| == 1 then parts[0] else parts[0] + [c] + Join(parts[1..], c)
  }

  /** Address.Domain: the part after the '@' when there is exactly one.  A
      domain is the tail of the address behind an '@', with no '@' in it. */
  function Domain(a: Address): (r: string)
    ensures '@' !in r
    ensures r != "" ==> |r| < |a| && r == a[|a| - |r|..] && a[|a| - |r| - 1] == '@'
  {
    var parts := Split(a, '@');
    if |parts| == 2 then
      var i := IndexOf(a, '@');
      assert parts[1..] == Split(a[i + 1..], '@');
      assert a[i + 1..] == parts[1];
      parts[1]
    else ""
  }

  lemma {:induction false} CountAppend(a: string, b: string, c: char)
    ensures Count(a + b, c) == Count(a, c) + Count(b, c)
  {
    if a != [] {
      assert (a + b)[1..] == a[1..] + b;
      CountAppend(a[1..], b, c);
    } else {
      assert a + b == b;
    }
  }

  lemma {:induction false} CountAbsent(s: string, c: char)
    requires c !in s
    ensures Count(s, c) == 0
  {
    if s != [] {
      assert c !in s[1..];
      CountAbsent(s[1..], c);
    }
  }

  /** Split yields one more part than there are separators. */
  lemma {:induction false} SplitLength(s: string, c: char)
    ensures |Split(s, c)| == Count(s, c) + 1
    decreases |s|
  {
    if c in s {
      var i := IndexOf(s, c);
      assert s == s[..i] + [c] + s[i + 1..];
      CountAbsent(s[..i], c);
      CountAppend(s[..i] + [c], s[i + 1..], c);
      CountAppend(s[..i], [c], c);
      SplitLength(s[i + 1..], c);
    } else {
      CountAbsent(s, c);
    }
  }

  /** No part of a split contains the separator. */
  lemma {:induction false} SplitPartsClean(s: string, c: char)
    ensures forall p :: p in Split(s, c) ==> c !in p
    decreases |s|
  {
    if c in s {
      var i := IndexOf(s, c);
      SplitPartsClean(s[i + 1..], c);
    }
  }

  /** Joining the parts back with the separator restores the text. */
  lemma {:induction false} SplitJoin(s: string, c: char)
    ensures Join(Split(s, c), c) == s
    decreases |s|
  {
    if c in s {
      var i := IndexOf(s, c);
      SplitJoin(s[i + 1..], c);
      assert s == s[..i] + [c] + s[i + 1..];
    }
  }

  /** The first occurrence is the one with no earlier occurrence. */
  lemma {:induction false} IndexOfIsFirst(s: string, c: char, k: nat)
    requires k < |s| && s[k] == c && c !in s[..k]
    ensures IndexOf(s, c) == k
  {
    if k > 0 {
      assert s[0] == s[..k][0];
      assert s[1..][..k - 1] == s[..k][1..];
      IndexOfIsFirst(s[1..], c, k - 1);
    }
  }

  /** Splitting the join of separator-free parts gives the parts back. */
  lemma {:induction false} JoinSplit(parts: seq<string>, c: char)
    requires |parts| >= 1
    requires forall j :: 0 <= j < |parts| ==> c !in parts[j]
    ensures Split(Join(parts, c), c) == parts
  {
    if |parts| > 1 {
      var s := Join(parts, c);
      assert s == parts[0] + [c] + Join(parts[1..], c);
      assert s[..|parts[0]|] == parts[0];
      IndexOfIsFirst(s, c, |parts[0]|);
      assert s[|parts[0]| + 1..] == Join(parts[1..], c);
      JoinSplit(parts[1..], c);
    }
  }

  /** Domain has a value exactly when the address has a single '@', and the
      value is the text after it. */
  lemma DomainSplitsAtTheOnlyAt(local: string, domain: string)
    requires '@' !in local && '@' !in domain
    ensures Domain(local + "@" + domain) == domain
  {
    JoinSplit([local, domain], '@');
    assert Join([local, domain], '@') == local + "@" + domain by {
      assert Join([domain], '@') == domain;
    }
  }

  lemma {:induction false} DomainNeedsExactlyOneAt(a: Address)
    ensures Domain(a) != "" ==> Count(a, '@') == 1
    ensures Count(a, '@') != 1 ==> Domain(a) == ""
  {
    SplitLength(a, '@');
  }

  lemma {:induction false} DomainPartHasNoAt(d: string)
    requires IsDomainPart(d)
    ensures '@' !in d
    decreases |d|
  {
    if '.' in d {
      var i := IndexOf(d, '.');
      DomainPartHasNoAt(d[i + 1..]);
      assert d == d[..i] + ['.'] + d[i + 1..];
    }
  }

  lemma LocalCharIsNotAt(c: char)
    requires IsLocalChar(c)
    ensures c != '@'
  {
  }

  lemma DomainPartNotEmpty(d: string)
    requires IsDomainPart(d)
    ensures d != ""
  {
  }

  /** Splitting at the only '@' of an address. */
  lemma DecomposeAt(a: Address, k: nat)
    requires 0 < k < |a| && a[k] == '@' && '@' !in a[..k] && '@' !in a[k + 1..]
    ensures Domain(a) == a[k + 1..] && Count(a, '@') == 1
  {
    IndexOfIsFirst(a, '@', k);
    assert Split(a[k + 1..], '@') == [a[k + 1..]];
    assert Split(a, '@') == [a[..k], a[k + 1..]];
    SplitLength(a, '@');
  }

  /** The local part of the pattern has no '@'. */
  lemma LocalPartHasNoAt(a: Address, k: nat)
    requires k <= |a| && forall j :: 0 <= j < k ==> IsLocalChar(a[j])
    ensures '@' !in a[..k]
  {
    forall j | 0 <= j < k ensures a[..k][j] != '@' {
      LocalCharIsNotAt(a[j]);
    }
  }

  /** An address with a single '@', at k, is its local part, the '@' and
      its Domain. */
  lemma SplitsAt(a: Address, k: nat)
    requires 0 < k < |a| && a[k] == '@' && '@' !in a[..k] && '@' !in a[k + 1..]
    ensures Count(a, '@') == 1 && Domain(a) == a[k + 1..]
    ensures a == a[..k] + "@" + Domain(a)
  {
    assert a == a[..k] + [a[k]] + a[k + 1..];
    DecomposeAt(a, k);
  }

  /** A valid address is its local part, one '@' and its Domain, and the
      Domain is a well-formed, non-empty dotted host name. */
  lemma {:induction false} ValidAddressDecomposes(a: Address)
    requires Validate(a) == None
    ensures Count(a, '@') == 1
    ensures Domain(a) != "" && IsDomainPart(Domain(a))
    ensures exists k :: 0 < k < |a| && a == a[..k] + "@" + Domain(a)
  {
    assert MatchesPattern(a);
    var k :| 0 < k < |a| && a[k] == '@' && (forall j :: 0 <= j < k ==> IsLocalChar(a[j])) && IsDomainPart(a[k + 1..]);
    LocalPartHasNoAt(a, k);
    DomainPartHasNoAt(a[k + 1..]);
    DomainPartNotEmpty(a[k + 1..]);
    SplitsAt(a, k);
  }

  /** The example from the accessor's own documentation. */
  lemma DomainExample()
    ensures Domain("alysson@letter.me") == "letter.me"
  {
    DomainSplitsAtTheOnlyAt("alysson", "letter.me");
    assert "alysson" + "@" + "letter.me" == "alysson@letter.me";
  }

  /** A letter outside ASCII in the local part ("¨", two octets in UTF-8) is
      refused by the pattern, though the length test passes. */
  lemma RejectsNonAsciiLocalPart()
    ensures Validate("alysson\U{C2}\U{A8}@letter.me") == Some(NotMatching("alysson\U{C2}\U{A8}@letter.me"))
  {
    var a := "alysson\U{C2}\U{A8}@letter.me";
    forall k | 0 < k < |a| && a[k] == '@' ensures 7 < k && !IsLocalChar(a[7]) {
    }
    assert !MatchesPattern(a);
  }
}
