/** Host names as the daemon checks them (daemon/src/validation.rs), against section 2.1 of RFC 1123. */
module Hostnames {
  import opened Text
  import opened Sequences
  import opened Domains

  const MAX_DOMAIN_LENGTH := 253
  const MAX_LABEL_LENGTH := 63
  const MAX_DNS_DOMAINS := 64

  /** Bytes of a character in UTF-8; `str::len` counts these. */
  function Utf8Size(c: char): nat
  {
    var n := c as int;
    if n < 0x80 then 1 else if n < 0x800 then 2 else if n < 0x1_0000 then 3 else 4
  }

  function Utf8Length(s: string): nat
  {
    if s == "" then 0 else Utf8Size(s[0]) + Utf8Length(s[1..])
  }

  predicate IsAlphanumeric(c: char)
  {
    'a' <= c <= 'z' || 'A' <= c <= 'Z' || '0' <= c <= '9'
  }

  predicate IsNameChar(c: char)
  {
    IsAlphanumeric(c) || c == '-'
  }

  /** The checks on one label. */
  predicate LabelPasses(part: string)
  {
    && !(part == "" || Utf8Length(part) > MAX_LABEL_LENGTH)
    && !(part[0] == '-' || part[|part| - 1] == '-')
    && (forall i :: 0 <= i < |part| ==> IsNameChar(part[i]))
  }

  /** `is_valid_hostname` */
  predicate IsValidHostname(domain: string)
  {
    && !(domain == "" || Utf8Length(domain) > MAX_DOMAIN_LENGTH)
    && forall i :: 0 <= i < |Split(domain, '.')| ==> LabelPasses(Split(domain, '.')[i])
  }

  /** A label of RFC 1123: 1 to 63 letters, digits and hyphens, with a letter or digit at either end. */
  predicate IsLabel(s: string)
  {
    && 1 <= |s| <= MAX_LABEL_LENGTH
    && (forall i :: 0 <= i < |s| ==> IsNameChar(s[i]))
    && IsAlphanumeric(s[0]) && IsAlphanumeric(s[|s| - 1])
  }

  predicate AllLabels(labels: seq<string>)
  {
    forall i :: 0 <= i < |labels| ==> IsLabel(labels[i])
  }

  predicate SpelledBy(domain: string, labels: seq<string>)
  {
    labels != [] && AllLabels(labels) && domain == Join(labels, '.')
  }

  /** A host name: labels separated by dots, 253 characters at most. */
  ghost predicate IsHostname(domain: string)
  {
    |domain| <= MAX_DOMAIN_LENGTH && exists labels :: SpelledBy(domain, labels)
  }

  // ---------------------------------------------------------------- lengths

  predicate IsAscii(s: string)
  {
    forall i :: 0 <= i < |s| ==> s[i] as int < 0x80
  }

  lemma {:induction false} AsciiLength(s: string)
    requires IsAscii(s)
    ensures Utf8Length(s) == |s|
  {
    if s != "" {
      AsciiLength(s[1..]);
    }
  }

  lemma {:induction false} JoinIsAscii(labels: seq<string>)
    requires forall i :: 0 <= i < |labels| ==> IsAscii(labels[i])
    ensures IsAscii(Join(labels, '.'))
  {
    if |labels| > 1 {
      JoinIsAscii(labels[1..]);
    }
  }

  lemma LabelIff(s: string)
    ensures LabelPasses(s) <==> IsLabel(s)
    ensures IsLabel(s) ==> IsAscii(s) && '.' !in s
  {
    if LabelPasses(s) || IsLabel(s) {
      assert IsAscii(s);
      AsciiLength(s);
    }
  }

  /** The check on bytes and split labels accepts exactly the host names. */
  lemma ValidIffHostname(domain: string)
    ensures IsValidHostname(domain) <==> IsHostname(domain)
  {
    hide LabelPasses, IsLabel, Split, Utf8Length, IsAscii;
    if IsValidHostname(domain) {
      ValidIsHostname(domain);
    }
    if IsHostname(domain) {
      var labels :| SpelledBy(domain, labels);
      HostnameIsValid(domain, labels);
    }
  }

  lemma ValidIsHostname(domain: string)
    requires IsValidHostname(domain)
    ensures IsHostname(domain) && IsAscii(domain)
  {
    hide LabelPasses, IsLabel, Split, Utf8Length, IsAscii;
    var labels := Split(domain, '.');
    JoinOfSplit(domain, '.');
    forall i | 0 <= i < |labels|
      ensures IsLabel(labels[i]) && IsAscii(labels[i])
    {
      LabelIff(labels[i]);
    }
    JoinIsAscii(labels);
    AsciiLength(domain);
    assert SpelledBy(domain, labels);
  }

  lemma HostnameIsValid(domain: string, labels: seq<string>)
    requires |domain| <= MAX_DOMAIN_LENGTH && SpelledBy(domain, labels)
    ensures IsValidHostname(domain)
  {
    hide LabelPasses, IsLabel, Split, Utf8Length, IsAscii;
    forall i | 0 <= i < |labels|
      ensures LabelPasses(labels[i]) && IsAscii(labels[i]) && '.' !in labels[i]
    {
      LabelIff(labels[i]);
    }
    SplitOfJoin(labels, '.');
    JoinIsAscii(labels);
    AsciiLength(domain);
    NotEmpty(labels);
  }

  lemma NotEmpty(labels: seq<string>)
    requires labels != [] && AllLabels(labels)
    ensures Join(labels, '.') != ""
  {
    assert IsLabel(labels[0]);
  }

  // ------------------------------------------------------------- validation

  /** The checks of `validate_dns` on one search domain. */
  predicate AcceptedDomain(domain: string)
  {
    && Utf8Length(domain) <= MAX_DOMAIN_LENGTH
    && Clean(domain) != "" && IsValidHostname(Clean(domain))
  }

  predicate AcceptedDomains(domains: seq<string>)
  {
    |domains| <= MAX_DNS_DOMAINS && forall i :: 0 <= i < |domains| ==> AcceptedDomain(domains[i])
  }

  lemma HostnameStart(domain: string)
    requires IsHostname(domain)
    ensures domain != "" && !IsWhitespace(domain[0])
  {
    var labels :| SpelledBy(domain, labels);
    assert IsLabel(labels[0]);
    assert domain[0] == labels[0][0];
  }

  /** On accepted domains the normal form consists of host names, drops none of the domains, and is stable. */
  lemma AcceptedDomainsNormalise(domains: seq<string>)
    requires AcceptedDomains(domains)
    ensures forall k :: 0 <= k < |Normalised(domains)| ==> IsHostname(Normalised(domains)[k])
    ensures forall i :: 0 <= i < |domains| ==> Clean(domains[i]) in Normalised(domains)
    ensures NoDuplicates(Normalised(domains))
    ensures Normalised(Normalised(domains)) == Normalised(domains)
  {
    hide Clean, IsWhitespace, Domains.Normalised, NoDuplicates, IsHostname, IsValidHostname, Utf8Length;
    NormalisedMeaning(domains);
    forall i | 0 <= i < |domains|
      ensures IsHostname(Clean(domains[i])) && Clean(domains[i]) != "" && !IsWhitespace(Clean(domains[i])[0])
    {
      assert AcceptedDomain(domains[i]);
      ValidIffHostname(Clean(domains[i]));
      HostnameStart(Clean(domains[i]));
    }
    forall k | 0 <= k < |Normalised(domains)|
      ensures IsHostname(Normalised(domains)[k])
    {
      var i := NormalisedIsCleaned(domains, k);
    }
    NormaliseTwice(domains);
  }

  /** The normal form of an accepted list is accepted again. */
  lemma NormalFormIsAccepted(domains: seq<string>)
    requires AcceptedDomains(domains)
    ensures AcceptedDomains(Normalised(domains))
  {
    hide Clean, Domains.Normalised, IsValidHostname, NoDuplicates, Utf8Length;
    AcceptedDomainsNormalise(domains);
    var r := Normalised(domains);
    NormalFormIsShorter(domains);
    forall k | 0 <= k < |r|
      ensures AcceptedDomain(r[k])
    {
      var i := NormalisedIsCleaned(domains, k);
      assert AcceptedDomain(domains[i]);
      ValidIffHostname(r[k]);
      HostnameStart(r[k]);
      CleanAgain(domains[i]);
      ValidIsShort(r[k]);
    }
  }

  lemma ValidIsShort(domain: string)
    requires IsValidHostname(domain)
    ensures Utf8Length(domain) <= MAX_DOMAIN_LENGTH
  {}

  lemma NormalFormIsShorter(domains: seq<string>)
    ensures |Normalised(domains)| <= |domains|
  {
    NothingDropped(Cleaned(domains));
    CleanedIsShorter(domains);
  }
}
