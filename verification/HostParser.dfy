/** `ParseHost`: the canonical form of a reported destination. Hosts are compared
    by string equality everywhere else, so what matters is that every way to
    name a service yields one string.

    The proofs are for any cluster suffix without slash and colon; the theorems
    at the end are about the real one. */
module HostParser {
  import opened GoStrings
  import opened HostLists
  import opened Types
  import opened Projection

  // ----- the code -----

  function ParseHost(srcNamespace: string, destination: string): Host
  {
    Parse(FQDN_SUFFIX, srcNamespace, destination)
  }

  function Parse(suffix: string, srcNamespace: string, destination: string): Host
  {
    var url := Split(destination, '/');
    var hostAndPort := Split(Trim(url[0], ':'), ':');
    if |hostAndPort| <= 0 then ""
    else
      var hostPrefix := Trim(TrimSuffix(hostAndPort[0], suffix), '.');
      Complete(suffix, srcNamespace, hostPrefix)
  }

  /** The last step: the namespace is the last part of the prefix, or else the
      caller's. */
  function Complete(suffix: string, srcNamespace: string, hostPrefix: string): Host
  {
    if '.' in hostPrefix then
      var svcAndNamespace := Split(hostPrefix, '.');
      if |svcAndNamespace| <= 1 then ""
      else svcAndNamespace[|svcAndNamespace| - 1] + "/" + hostPrefix + suffix
    else
      srcNamespace + "/" + hostPrefix + "." + srcNamespace + suffix
  }

  // ----- its parts -----

  /** What is left of the destination without path and port. */
  function HostPart(destination: string): string
  {
    Split(Trim(Split(destination, '/')[0], ':'), ':')[0]
  }

  /** ... and without the cluster suffix: a service, maybe with its namespace. */
  function ServicePrefix(suffix: string, destination: string): string
  {
    Trim(TrimSuffix(HostPart(destination), suffix), '.')
  }

  /** A host part that trimming leaves as it is. */
  predicate Clean(p: string)
  {
    '/' !in p && ':' !in p && (p == [] || (p[0] != '.' && p[|p| - 1] != '.'))
  }

  lemma NotInParts(s: string, c: char, d: char)
    requires c !in s
    ensures c !in Split(s, d)[0] && c !in Trim(s, d)
  {
    TrimEnds(s, d);
    assert forall x :: x in Split(s, d)[0] ==> x in s;
  }

  lemma SplitNone(s: string, c: char)
    requires c !in s
    ensures Split(s, c)[0] == s
  {
    assert IndexOf(s, c) == |s|;
  }

  lemma FirstPartLacks(s: string, c: char)
    ensures c !in Split(s, c)[0]
  {
  }

  lemma HostPartLacks(destination: string)
    ensures '/' !in HostPart(destination) && ':' !in HostPart(destination)
  {
    var url := Split(destination, '/')[0];
    FirstPartLacks(destination, '/');
    NotInParts(url, '/', ':');
    var trimmed := Trim(url, ':');
    NotInParts(trimmed, '/', ':');
    FirstPartLacks(trimmed, ':');
  }

  lemma TrimSuffixFront(s: string, suffix: string)
    ensures TrimSuffix(s, suffix) <= s
  {
  }

  lemma ServicePrefixClean(suffix: string, destination: string)
    ensures Clean(ServicePrefix(suffix, destination))
  {
    HostPartLacks(destination);
    CleanAfterTrim(suffix, HostPart(destination));
  }

  lemma CleanAfterTrim(suffix: string, host: string)
    requires '/' !in host && ':' !in host
    ensures Clean(Trim(TrimSuffix(host, suffix), '.'))
  {
    TrimSuffixFront(host, suffix);
    TrimEnds(TrimSuffix(host, suffix), '.');
  }

  lemma HostPartPlain(h: string)
    requires '/' !in h && ':' !in h
    ensures HostPart(h) == h
  {
    SplitNone(h, '/');
    assert h != [] ==> h[0] in h && h[|h| - 1] in h;
    TrimClean(h, ':');
    SplitNone(h, ':');
  }

  lemma TrimSuffixExact(p: string, suffix: string)
    ensures TrimSuffix(p + suffix, suffix) == p
  {
  }

  lemma ServicePrefixOfFqdn(suffix: string, p: string)
    requires Clean(p) && IsSuffix(suffix)
    ensures ServicePrefix(suffix, p + suffix) == p
  {
    HostPartPlain(p + suffix);
    TrimSuffixExact(p, suffix);
    TrimClean(p, '.');
  }

  predicate IsSuffix(suffix: string)
  {
    '/' !in suffix && ':' !in suffix
  }

  lemma CompleteDotted(suffix: string, src: string, svc: string, ns: string)
    requires '.' !in ns
    ensures Complete(suffix, src, svc + "." + ns) == Qualified(ns, svc + "." + ns + suffix)
  {
    var p := svc + "." + ns;
    assert p[|svc|] == '.';
    SplitLast(svc, '.', ns);
    assert p == svc + ['.'] + ns;
    assert ns + "/" + p + suffix == Qualified(ns, p + suffix);
  }

  lemma CompletePlain(suffix: string, src: string, p: string)
    requires '.' !in p
    ensures Complete(suffix, src, p) == Qualified(src, p + "." + src + suffix)
  {
    assert src + "/" + p + "." + src + suffix == Qualified(src, p + "." + src + suffix);
  }

  lemma CutDotted(p: string) returns (svc: string, ns: string)
    requires Clean(p) && '.' in p
    ensures p == svc + "." + ns && svc != "" && ns != "" && '.' !in ns
  {
    var k := LastSeparator(p, '.');
    svc, ns := p[..k], p[k + 1..];
  }

  // ----- port and path -----

  lemma TrimKeepsFront(h: string, c: char, tail: string) returns (t: string)
    requires h != "" && c !in h
    ensures t <= tail && Trim(h + tail, c) == h + t
  {
    var whole := h + tail;
    assert whole[0] == h[0] && whole[|h| - 1] == h[|h| - 1];
    assert h[0] in h && h[|h| - 1] in h;
    var r := TrimRight(whole, c);
    t := r[|h|..];
  }

  lemma FirstPart(h: string, c: char, tail: string)
    requires c !in h && (tail == "" || tail[0] == c)
    ensures Split(h + tail, c)[0] == h
  {
    if tail == "" {
      assert h + tail == h;
      SplitNone(h, c);
    } else {
      assert h + tail == h + [c] + tail[1..];
      SplitFirst(h, c, tail[1..]);
    }
  }

  lemma PartBeforePort(h: string, tail: string)
    requires h != "" && ':' !in h && (tail == "" || tail[0] == ':')
    ensures Split(Trim(h + tail, ':'), ':')[0] == h
  {
    var t := TrimKeepsFront(h, ':', tail);
    FirstPart(h, ':', t);
  }

  lemma HostPartBefore(h: string, port: string, path: string)
    requires h != "" && '/' !in h && ':' !in h
    requires '/' !in port && (port == "" || port[0] == ':') && (path == "" || path[0] == '/')
    ensures HostPart(h + port + path) == HostPart(h) == h
  {
    FirstPart(h + port, '/', path);
    PartBeforePort(h, port);
    HostPartPlain(h);
  }

  lemma ParseIgnoresTail(suffix: string, src: string, h: string, port: string, path: string)
    requires h != "" && '/' !in h && ':' !in h
    requires '/' !in port && (port == "" || port[0] == ':') && (path == "" || path[0] == '/')
    ensures Parse(suffix, src, h + port + path) == Parse(suffix, src, h)
  {
    HostPartBefore(h, port, path);
  }

  /** Port and path never matter: for every non-empty host part, with or without
      a port (any text without a slash, after a colon) and with or without a path
      (any text, after a slash). */
  lemma ParseHostIgnoresPortAndPath(src: string, h: string, port: string, path: string)
    requires h != "" && '/' !in h && ':' !in h
    requires '/' !in port && (port == "" || port[0] == ':') && (path == "" || path[0] == '/')
    ensures ParseHost(src, h + port + path) == ParseHost(src, h)
  {
    ParseIgnoresTail(FQDN_SUFFIX, src, h, port, path);
  }

  // ----- normal form -----

  /** A host with exactly one slash, whose part after the slash reads back as the
      same string wherever it is reported from. */
  ghost predicate NormalForm(suffix: string, q: Host)
  {
    exists ns: string, host: string :: q == Qualified(ns, host) && ReadsBack(suffix, ns, host)
  }

  ghost predicate ReadsBack(suffix: string, ns: string, host: string)
  {
    && '/' !in ns && '/' !in host
    && forall other: string :: Parse(suffix, other, host) == Qualified(ns, host)
  }

  lemma DottedReadsBack(suffix: string, svc: string, ns: string)
    requires '.' !in ns && Clean(svc + "." + ns) && IsSuffix(suffix)
    ensures ReadsBack(suffix, ns, svc + "." + ns + suffix)
  {
    var p := svc + "." + ns;
    assert forall x :: x in ns ==> x in p;
    forall other: string ensures Parse(suffix, other, p + suffix) == Qualified(ns, p + suffix) {
      ServicePrefixOfFqdn(suffix, p);
      CompleteDotted(suffix, other, svc, ns);
    }
  }

  lemma TrimLeadingDot(s: string)
    requires Clean(s) && '.' !in s
    ensures Trim("." + s, '.') == s
  {
    var whole := "." + s;
    assert whole[1..] == s;
    TrimClean(s, '.');
  }

  lemma TrimTrailingDot(s: string)
    requires Clean(s) && '.' !in s
    ensures Trim(s + ".", '.') == s
  {
    var whole := s + ".";
    assert whole[..|s|] == s;
    if s == "" {
      assert whole[1..] == "";
    }
  }

  lemma IncompletePrefix(suffix: string, src: string, p: string)
    requires IsSuffix(suffix) && Clean(src) && Clean(p) && '.' !in src && '.' !in p && (p == "" || src == "")
    ensures ServicePrefix(suffix, p + "." + src + suffix) == p + src
  {
    var s := p + "." + src;
    HostPartPlain(s + suffix);
    TrimSuffixExact(s, suffix);
    if p == "" {
      assert s == "." + src && p + src == src;
      TrimLeadingDot(src);
    } else {
      assert s == p + "." && p + src == p;
      TrimTrailingDot(p);
    }
  }

  lemma ParseCompletes(suffix: string, src: string, d: string, p: string)
    requires ServicePrefix(suffix, d) == p
    ensures Parse(suffix, src, d) == Complete(suffix, src, p)
  {
  }

  lemma IncompleteElsewhere(suffix: string, src: string, p: string, host: string)
    requires IsSuffix(suffix) && Clean(src) && Clean(p) && '.' !in src && '.' !in p && (p == "" || src == "")
    requires host == p + "." + src + suffix
    ensures Parse(suffix, src + "x", host) != Qualified(src, host)
  {
    IncompletePrefix(suffix, src, p);
    ParseCompletes(suffix, src + "x", host, p + src);
    CompletePlain(suffix, src + "x", p + src);
    DifferentNamespace(src, host, p + src + "." + (src + "x") + suffix);
  }

  lemma DifferentNamespace(src: string, h1: string, h2: string)
    ensures Qualified(src, h1) != Qualified(src + "x", h2)
  {
    assert Qualified(src, h1)[|src|] == '/' && Qualified(src + "x", h2)[|src|] == 'x';
  }

  lemma DoesNotReadBack(suffix: string, ns: string, host: string, other: string)
    requires Parse(suffix, other, host) != Qualified(ns, host) && '/' !in ns
    ensures !NormalForm(suffix, Qualified(ns, host))
  {
    forall ns': string, h: string | Qualified(ns, host) == Qualified(ns', h) && '/' !in ns'
      ensures !ReadsBack(suffix, ns', h)
    {
      QualifiedInjective(ns, host, ns', h);
    }
  }

  /** Without a service or without a namespace the host reads back differently
      from another namespace. */
  lemma IncompleteDoesNotReadBack(suffix: string, src: string, p: string)
    requires IsSuffix(suffix) && Clean(src) && Clean(p) && '.' !in src && '.' !in p && (p == "" || src == "")
    ensures !NormalForm(suffix, Qualified(src, p + "." + src + suffix))
  {
    var host := p + "." + src + suffix;
    IncompleteElsewhere(suffix, src, p, host);
    DoesNotReadBack(suffix, src, host, src + "x");
  }

  lemma NormalFormOfPrefix(suffix: string, src: string, p: string)
    requires IsSuffix(suffix) && Clean(src) && '.' !in src && Clean(p)
    ensures NormalForm(suffix, Complete(suffix, src, p)) <==> '.' in p || (p != "" && src != "")
    ensures '.' in p || (p != "" && src != "") ==>
              exists svc, ns :: svc != "" && ns != "" && Complete(suffix, src, p) == Qualified(ns, svc + "." + ns + suffix)
  {
    if '.' in p {
      var svc, ns := CutDotted(p);
      CompleteDotted(suffix, src, svc, ns);
      DottedReadsBack(suffix, svc, ns);
    } else {
      CompletePlain(suffix, src, p);
      if p != "" && src != "" {
        DottedReadsBack(suffix, p, src);
      } else {
        IncompleteDoesNotReadBack(suffix, src, p);
      }
    }
  }

  lemma SuffixClean()
    ensures IsSuffix(FQDN_SUFFIX)
  {
  }

  /** For a source namespace that is a DNS label, or missing, the result is in
      normal form exactly when the destination names its namespace, or there is
      both a service and a source namespace to complete it with. It then has the
      shape `ns/svc.ns.svc.cluster.local`. */
  lemma NormalFormExactly(src: string, destination: string)
    requires '/' !in src && ':' !in src && '.' !in src
    ensures var p := ServicePrefix(FQDN_SUFFIX, destination);
            NormalForm(FQDN_SUFFIX, ParseHost(src, destination)) <==> '.' in p || (p != "" && src != "")
    ensures NormalForm(FQDN_SUFFIX, ParseHost(src, destination)) ==>
              exists svc, ns :: svc != "" && ns != "" && ParseHost(src, destination) == Qualified(ns, svc + "." + ns + FQDN_SUFFIX)
  {
    SuffixClean();
    ServicePrefixClean(FQDN_SUFFIX, destination);
    assert src != "" ==> src[0] in src && src[|src| - 1] in src;
    NormalFormOfPrefix(FQDN_SUFFIX, src, ServicePrefix(FQDN_SUFFIX, destination));
  }

  /** The empty string, which stands for "no host in destination" and "no
      namespace in destination", is never returned. */
  lemma ParseHostNeverEmpty(src: string, destination: string)
    ensures '/' in ParseHost(src, destination)
  {
    var p := ServicePrefix(FQDN_SUFFIX, destination);
    ServicePrefixClean(FQDN_SUFFIX, destination);
    if '.' in p {
      var svc, ns := CutDotted(p);
      CompleteDotted(FQDN_SUFFIX, src, svc, ns);
    } else {
      CompletePlain(FQDN_SUFFIX, src, p);
    }
  }

  // ----- the result, for every destination -----

  lemma CutAtFirst(s: string, c: char) returns (tail: string)
    ensures s == Split(s, c)[0] + tail && (tail == "" || tail[0] == c)
  {
    tail := s[IndexOf(s, c)..];
  }

  lemma Regroup(l: string, h: string, tail: string, r: string)
    ensures l + (h + tail) + r == l + h + (tail + r)
  {
  }

  /** The part before the path is colons, a host and maybe a port. */
  lemma PortCut(url: string, h: string) returns (colons: string, port: string)
    requires h == Split(Trim(url, ':'), ':')[0]
    ensures url == colons + h + port && All(colons, ':') && (h == "" ==> port == "")
    ensures port == "" || port[0] == ':'
  {
    var trimmed := Trim(url, ':');
    var l, r := TrimExactly(url, ':');
    var tail := CutAtFirst(trimmed, ':');
    if h == "" {
      assert trimmed == tail == "";
      colons, port := l + r, "";
    } else {
      colons, port := l, tail + r;
      Regroup(l, h, tail, r);
    }
  }

  /** Every destination is colons, a host part, maybe a port and maybe a path; and
      the host part is what `HostPart` keeps. */
  lemma HostPartExactly(destination: string) returns (colons: string, port: string, path: string)
    ensures destination == colons + HostPart(destination) + port + path
    ensures All(colons, ':') && '/' !in HostPart(destination) && ':' !in HostPart(destination)
    ensures '/' !in port && (port == "" || port[0] == ':') && (HostPart(destination) == "" ==> port == "")
    ensures path == "" || path[0] == '/'
  {
    var url := Split(destination, '/')[0];
    path := CutAtFirst(destination, '/');
    colons, port := PortCut(url, HostPart(destination));
    HostPartLacks(destination);
    FirstPartLacks(destination, '/');
    assert forall x :: x in port ==> x in url;
  }

  ghost predicate EndsIn(h: string, suffix: string)
  {
    |suffix| <= |h| && h[|h| - |suffix|..] == suffix
  }

  /** Without the cluster suffix, if it is there, and without dots around. */
  lemma PrefixCut(h: string, suffix: string) returns (l: string, r: string)
    ensures var p := Trim(TrimSuffix(h, suffix), '.');
            && All(l, '.') && All(r, '.') && (p == "" || (p[0] != '.' && p[|p| - 1] != '.'))
            && h == l + p + r + if EndsIn(h, suffix) then suffix else ""
  {
    l, r := TrimExactly(TrimSuffix(h, suffix), '.');
  }

  /** The service prefix is the host part without the cluster suffix, if it ends in
      it, and without dots around it. */
  lemma ServicePrefixExactly(suffix: string, destination: string) returns (l: string, r: string)
    ensures var h, p := HostPart(destination), ServicePrefix(suffix, destination);
            && All(l, '.') && All(r, '.') && (p == "" || (p[0] != '.' && p[|p| - 1] != '.'))
            && h == l + p + r + if EndsIn(h, suffix) then suffix else ""
  {
    l, r := PrefixCut(HostPart(destination), suffix);
  }

  /** The result for every destination: a service prefix with a dot names its
      namespace after the last dot, any other is completed with the caller's. */
  lemma ParseHostExactly(src: string, destination: string)
    ensures var p := ServicePrefix(".svc.cluster.local", destination);
            if '.' !in p then ParseHost(src, destination) == src + "/" + p + "." + src + ".svc.cluster.local"
            else exists k :: 0 <= k < |p| && p[k] == '.' && '.' !in p[k + 1..]
                             && ParseHost(src, destination) == p[k + 1..] + "/" + p + ".svc.cluster.local"
  {
    var p := ServicePrefix(FQDN_SUFFIX, destination);
    if '.' in p {
      var k := LastSeparator(p, '.');
      SplitLast(p[..k], '.', p[k + 1..]);
    }
  }

  // ----- the documented forms -----

  predicate IsLabel(s: string)
  {
    s != "" && '.' !in s && '/' !in s && ':' !in s
  }

  /** How a caller may name the service `svc` in `ns`; the first two forms leave
      the namespace to the caller's own. */
  datatype Form = Bare | BareFqdn | WithNamespace | Fqdn

  function HostOf(suffix: string, form: Form, svc: string, ns: string): string
  {
    match form
    case Bare => svc
    case BareFqdn => svc + suffix
    case WithNamespace => svc + "." + ns
    case Fqdn => svc + "." + ns + suffix
  }

  /** A form with an optional port, written with its colon, and an optional path,
      written with its slash. */
  datatype Destination = Destination(form: Form, port: string, path: string)

  function Render(d: Destination, svc: string, ns: string): string
  {
    HostOf(FQDN_SUFFIX, d.form, svc, ns) + d.port + d.path
  }

  predicate Locates(src: string, d: Destination, ns: string)
  {
    && (d.form.Bare? || d.form.BareFqdn? ==> src == ns)
    && '/' !in d.port && (d.port == "" || d.port[0] == ':')
    && (d.path == "" || d.path[0] == '/')
  }

  function ServiceHost(svc: string, ns: string): Host
  {
    MiddlewareHost(Middleware(svc, ns, 0, "", ""))
  }

  /** A name with fewer dots than the suffix does not end in it. */
  predicate TwoDots(suffix: string)
  {
    |suffix| > 4 && suffix[0] == '.' && suffix[4] == '.'
  }

  lemma DotsOfPair(svc: string, ns: string, i: nat)
    requires '.' !in svc && '.' !in ns && i < |svc + "." + ns|
    ensures (svc + "." + ns)[i] == '.' ==> i == |svc|
  {
    var q := svc + "." + ns;
    assert q[i] == if i < |svc| then svc[i] else if i == |svc| then '.' else ns[i - |svc| - 1];
  }

  lemma LabelNotFqdn(suffix: string, svc: string, ns: string)
    requires IsLabel(svc) && IsLabel(ns) && TwoDots(suffix)
    ensures TrimSuffix(svc, suffix) == svc && TrimSuffix(svc + "." + ns, suffix) == svc + "." + ns
  {
    var q, n := svc + "." + ns, |suffix|;
    if n <= |svc| {
      assert svc[|svc| - n..][0] in svc;
    }
    if n <= |q| && q[|q| - n..] == suffix {
      assert q[|q| - n] == suffix[0] && q[|q| - n + 4] == suffix[4];
      DotsOfPair(svc, ns, |q| - n);
      DotsOfPair(svc, ns, |q| - n + 4);
    }
  }

  lemma LabelPairClean(svc: string, ns: string)
    requires IsLabel(svc) && IsLabel(ns)
    ensures Clean(svc) && Clean(svc + "." + ns)
  {
    assert svc[0] in svc && svc[|svc| - 1] in svc && ns[|ns| - 1] in ns;
  }

  lemma FormAgrees(suffix: string, src: string, form: Form, svc: string, ns: string)
    requires IsSuffix(suffix) && TwoDots(suffix) && IsLabel(svc) && IsLabel(ns)
    requires form.Bare? || form.BareFqdn? ==> src == ns
    ensures var h := HostOf(suffix, form, svc, ns);
            && h != "" && '/' !in h && ':' !in h
            && Parse(suffix, src, h) == Qualified(ns, svc + "." + ns + suffix)
  {
    var h := HostOf(suffix, form, svc, ns);
    HostPartPlain(h);
    LabelPairClean(svc, ns);
    LabelNotFqdn(suffix, svc, ns);
    TrimClean(svc, '.');
    TrimClean(svc + "." + ns, '.');
    TrimSuffixExact(svc, suffix);
    TrimSuffixExact(svc + "." + ns, suffix);
    CompletePlain(suffix, src, svc);
    CompleteDotted(suffix, src, svc, ns);
  }

  /** Every documented form, with or without port and path, yields the string the
      projection uses for the same service as middleware. */
  lemma FormsAgree(src: string, d: Destination, svc: string, ns: string)
    requires IsLabel(svc) && IsLabel(ns) && Locates(src, d, ns)
    ensures ParseHost(src, Render(d, svc, ns)) == ServiceHost(svc, ns)
  {
    SuffixClean();
    FormAgrees(FQDN_SUFFIX, src, d.form, svc, ns);
    ParseHostIgnoresPortAndPath(src, HostOf(FQDN_SUFFIX, d.form, svc, ns), d.port, d.path);
    ServiceHostQualified(svc, ns);
  }

  lemma ServiceHostQualified(svc: string, ns: string)
    ensures ServiceHost(svc, ns) == Qualified(ns, svc + "." + ns + FQDN_SUFFIX)
  {
    assert ns + "/" + svc + "." + ns + FQDN_SUFFIX == ns + "/" + (svc + "." + ns + FQDN_SUFFIX);
  }

  /** Different services get different strings. */
  lemma ServiceHostInjective(svc1: string, ns1: string, svc2: string, ns2: string)
    requires '/' !in ns1 && '/' !in ns2
    requires ServiceHost(svc1, ns1) == ServiceHost(svc2, ns2)
    ensures svc1 == svc2 && ns1 == ns2
  {
    var h1, h2 := svc1 + "." + ns1 + FQDN_SUFFIX, svc2 + "." + ns2 + FQDN_SUFFIX;
    ServiceHostQualified(svc1, ns1);
    ServiceHostQualified(svc2, ns2);
    QualifiedInjective(ns1, h1, ns2, h2);
    assert |svc1| == |svc2|;
    assert h1[..|svc1|] == svc1 && h2[..|svc2|] == svc2;
  }

  /** The forms that the code lists, spelled out, with any port and any path. */
  lemma DocumentedForms(src: string, svc: string, ns: string, port: string, path: string)
    requires IsLabel(svc) && IsLabel(ns) && '/' !in port
    ensures var host := ns + "/" + svc + "." + ns + ".svc.cluster.local";
            var full := svc + "." + ns + ".svc.cluster.local";
            && ParseHost(ns, svc) == host
            && ParseHost(src, full) == host
            && ParseHost(ns, svc + ":" + port) == host
            && ParseHost(src, full + ":" + port) == host
            && ParseHost(ns, svc + "/" + path) == host
            && ParseHost(src, full + "/" + path) == host
            && ParseHost(ns, svc + ":" + port + "/" + path) == host
            && ParseHost(src, full + ":" + port + "/" + path) == host
            && ParseHost(src, svc + "." + ns) == host
  {
    FormAnyTail(ns, Bare, svc, ns, port, path);
    FormAnyTail(src, Fqdn, svc, ns, port, path);
    FormAnyTail(src, WithNamespace, svc, ns, port, path);
  }

  lemma TailsOf(f: string -> Host, h: string, port: string, path: string, host: Host)
    requires f(h + "" + "") == host && f(h + (":" + port) + "") == host
    requires f(h + "" + ("/" + path)) == host && f(h + (":" + port) + ("/" + path)) == host
    ensures f(h) == f(h + ":" + port) == f(h + "/" + path) == f(h + ":" + port + "/" + path) == host
  {
    assert h + "" + "" == h && h + (":" + port) + "" == h + ":" + port && h + "" + ("/" + path) == h + "/" + path;
    assert h + (":" + port) + ("/" + path) == h + ":" + port + "/" + path;
  }

  lemma FormAnyTail(src: string, form: Form, svc: string, ns: string, port: string, path: string)
    requires IsLabel(svc) && IsLabel(ns) && '/' !in port && (form.Bare? || form.BareFqdn? ==> src == ns)
    ensures var h, host := HostOf(FQDN_SUFFIX, form, svc, ns), ServiceHost(svc, ns);
            && ParseHost(src, h) == host && ParseHost(src, h + ":" + port) == host
            && ParseHost(src, h + "/" + path) == host && ParseHost(src, h + ":" + port + "/" + path) == host
  {
    FormsAgree(src, Destination(form, "", ""), svc, ns);
    FormsAgree(src, Destination(form, ":" + port, ""), svc, ns);
    FormsAgree(src, Destination(form, "", "/" + path), svc, ns);
    FormsAgree(src, Destination(form, ":" + port, "/" + path), svc, ns);
    TailsOf(d => ParseHost(src, d), HostOf(FQDN_SUFFIX, form, svc, ns), port, path, ServiceHost(svc, ns));
  }
}
