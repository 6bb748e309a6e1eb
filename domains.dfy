/**
 * The domain reducer `getSecondLevelDomain`: the last two `.`-separated labels of a
 * hostname. There is no public-suffix or country-code handling, so
 * `careers.bbc.co.uk` reduces to `co.uk`.
 */
module Domains {
  import opened JsStrings

  /** `getSecondLevelDomain(hostname)`. */
  function SecondLevelDomain(hostname: string): string
  {
    var labels := Split(hostname, '.');
    if |labels| >= 2 then Join(labels[|labels| - 2..], '.') else hostname
  }

  /** How many dots `s` contains. */
  function DotCount(s: string): nat
  {
    multiset(s)['.']
  }

  /**
   * A hostname with a dot reduces to its last two labels joined by a dot; one
   * without a dot is returned unchanged.
   */
  lemma {:induction false} SecondLevelDomainLabels(hostname: string)
    ensures var labels := Split(hostname, '.');
            var n := |labels|;
            ('.' in hostname ==> SecondLevelDomain(hostname) == labels[n - 2] + "." + labels[n - 1]) &&
            ('.' !in hostname ==> SecondLevelDomain(hostname) == hostname)
  {
    var labels := Split(hostname, '.');
    var n := |labels|;
    if n >= 2 {
      var pair := labels[n - 2..];
      assert pair[1..] == [labels[n - 1]];
      assert Join(pair, '.') == pair[0] + ['.'] + Join(pair[1..], '.');
    }
  }

  /**
   * The reduced domain is the part of the hostname after its second-to-last dot
   * (all of it when it has only one): a suffix of the hostname, with exactly one
   * dot if the hostname has any, preceded in the hostname by a dot unless it is
   * the whole hostname.
   */
  lemma {:induction false} SecondLevelDomainSuffix(hostname: string)
    ensures var r := SecondLevelDomain(hostname);
            IsSuffix(r, hostname) && DotCount(r) <= 1 &&
            ('.' in hostname ==>
               DotCount(r) == 1 && (|r| == |hostname| || hostname[|hostname| - |r| - 1] == '.'))
  {
    var labels := Split(hostname, '.');
    var n := |labels|;
    var r := SecondLevelDomain(hostname);
    SecondLevelDomainLabels(hostname);
    JoinSplit(hostname, '.');
    if n >= 2 {
      var a, b := labels[n - 2], labels[n - 1];
      assert '.' !in a && '.' !in b;
      assert multiset(r) == multiset(a) + multiset{'.'} + multiset(b);
      assert Join(labels[n - 2..], '.') == r by {
        assert labels[n - 2..][1..] == [b];
      }
      if n > 2 {
        JoinAt(labels, '.', n - 2);
        var front := Join(labels[..n - 2], '.');
        assert hostname == front + ['.'] + r;
        assert hostname[|hostname| - |r|..] == r;
      }
    } else {
      assert multiset(hostname)['.'] == 0;
    }
  }

  /** Reducing an already reduced domain changes nothing. */
  lemma {:induction false} SecondLevelDomainIdempotent(hostname: string)
    ensures SecondLevelDomain(SecondLevelDomain(hostname)) == SecondLevelDomain(hostname)
  {
    var labels := Split(hostname, '.');
    var n := |labels|;
    var r := SecondLevelDomain(hostname);
    SecondLevelDomainLabels(hostname);
    if n >= 2 {
      var pair := [labels[n - 2], labels[n - 1]];
      assert Join(pair, '.') == r by {
        assert pair[1..] == [labels[n - 1]];
      }
      SplitJoin(pair, '.');
      assert pair[|pair| - 2..] == pair;
    }
  }

  /** A `www` host reduces to the name under it, e.g. `www.apple.com` to `apple.com`. */
  lemma ReducesWww(name: string, tld: string)
    requires '.' !in name && '.' !in tld
    ensures SecondLevelDomain("www." + name + "." + tld) == name + "." + tld
  {
    var labels := ["www", name, tld];
    JoinThree("www", name, tld);
    assert "www." + name + "." + tld == "www" + "." + name + "." + tld;
    ReducesTo(labels);
  }

  /**
   * A cookie domain with a leading dot loses it along with the subdomain, e.g.
   * `.ads.tracker.net` reduces to `tracker.net`.
   */
  lemma ReducesLeadingDot(sub: string, name: string, tld: string)
    requires '.' !in sub && '.' !in name && '.' !in tld
    ensures SecondLevelDomain("." + sub + "." + name + "." + tld) == name + "." + tld
  {
    var labels := ["", sub, name, tld];
    JoinFour("", sub, name, tld);
    assert "" + "." + sub + "." + name + "." + tld == "." + sub + "." + name + "." + tld;
    ReducesTo(labels);
  }

  /**
   * Country-code second-level domains are not recognised: every host two labels
   * under `co.uk`, such as `careers.bbc.co.uk`, reduces to `co.uk`.
   */
  lemma ReducesCountryCode(sub: string, name: string)
    requires '.' !in sub && '.' !in name
    ensures SecondLevelDomain(sub + "." + name + ".co.uk") == "co.uk"
  {
    var labels := [sub, name, "co", "uk"];
    JoinFour(sub, name, "co", "uk");
    assert sub + "." + name + ".co.uk" == sub + "." + name + "." + "co" + "." + "uk";
    ReducesTo(labels);
    assert "co" + "." + "uk" == "co.uk";
  }

  lemma JoinThree(a: string, b: string, c: string)
    ensures Join([a, b, c], '.') == a + "." + b + "." + c
  {
    assert [a, b, c][1..] == [b, c];
    assert [b, c][1..] == [c];
    assert Join([b, c], '.') == b + "." + c;
  }

  lemma JoinFour(a: string, b: string, c: string, d: string)
    ensures Join([a, b, c, d], '.') == a + "." + b + "." + c + "." + d
  {
    assert [a, b, c, d][1..] == [b, c, d];
    JoinThree(b, c, d);
  }

  /** A hostname built from dot-free labels reduces to the last two of them. */
  lemma ReducesTo(labels: seq<string>)
    requires |labels| >= 2
    requires forall k :: 0 <= k < |labels| ==> '.' !in labels[k]
    ensures SecondLevelDomain(Join(labels, '.')) == labels[|labels| - 2] + "." + labels[|labels| - 1]
  {
    SplitJoin(labels, '.');
    SecondLevelDomainLabels(Join(labels, '.'));
  }
}
