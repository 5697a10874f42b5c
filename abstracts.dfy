/** `fetch_abstract` (data/ack_extractor.py:62-76): ask Crossref, then DOI
    content negotiation, then the Springer page, and keep the first
    non-empty answer. What each service answers is an oracle; the model
    records which services were asked, so that "a later service is not
    asked" can be stated. */
module Abstracts {

  import opened Wrappers

  /** The three lookups of lines 16-61, in the order `fetch_abstract` tries them. */
  datatype Service = Crossref | Negotiation | Springer

  const Services: seq<Service> := [Crossref, Negotiation, Springer]

  /** What a service does for a DOI: return the abstract it found, or
      `None` when it found nothing or its request failed (a
      `RequestException` it catches), or raise an exception it does not
      catch: Crossref's `data["message"]` on a reply without `message`
      (line 23), Springer's `.find('p').get_text()` on a section without a
      paragraph (line 55), or `.get` on a JSON body that is not an object. */
  datatype Reply = Returns(text: Option<string>) | Raises

  type Oracle = (Service, string) -> Reply

  /** The value returned, whether an exception escaped instead, and the
      services asked, in order. */
  datatype Answer = Answer(found: Option<string>, raised: bool, asked: seq<Service>)

  /** Python's truth value of a `str` or `None`. */
  predicate Truthy(r: Option<string>) {
    r.Some? && r.value != ""
  }

  /** A service that returned a falsy value, so that the next one is asked. */
  predicate Falsy(r: Reply) {
    r.Returns? && !Truthy(r.text)
  }

  /** Tries `services` in order and stops at the first truthy answer or at
      the first exception, which propagates. */
  function Chain(services: seq<Service>, doi: string, oracle: Oracle): (a: Answer)
    ensures a.asked <= services
    ensures forall k :: 0 <= k < |a.asked| - 1 ==> Falsy(oracle(a.asked[k], doi))
    ensures a.raised ==> a.found.None? && a.asked != [] && oracle(a.asked[|a.asked| - 1], doi).Raises?
    ensures a.found.Some? ==> a.asked != [] && Truthy(a.found) && oracle(a.asked[|a.asked| - 1], doi) == Returns(a.found)
    ensures a.found.None? && !a.raised ==> a.asked == services && forall k :: 0 <= k < |services| ==> Falsy(oracle(services[k], doi))
    decreases |services|
  {
    if services == [] then Answer(None, false, [])
    else
      match oracle(services[0], doi)
      case Raises => Answer(None, true, [services[0]])
      case Returns(r) =>
        if Truthy(r) then Answer(r, false, [services[0]])
        else
          var rest := Chain(services[1..], doi, oracle);
          Answer(rest.found, rest.raised, [services[0]] + rest.asked)
  }

  /** Lines 62-76: no DOI (`None` or `""`) asks nobody. */
  function FetchAbstract(doi: Option<string>, oracle: Oracle): (a: Answer)
    ensures doi.None? || doi == Some("") ==> a == Answer(None, false, [])
  {
    if doi.None? || doi.value == "" then Answer(None, false, []) else Chain(Services, doi.value, oracle)
  }

  /** The answer is the first service's truthy answer, in the order of
      `Services`, and exactly the services up to it were asked. */
  lemma FetchAbstractFirst(doi: string, oracle: Oracle, i: nat)
    requires doi != "" && i < |Services|
    requires oracle(Services[i], doi).Returns? && Truthy(oracle(Services[i], doi).text)
    requires forall j :: 0 <= j < i ==> Falsy(oracle(Services[j], doi))
    ensures FetchAbstract(Some(doi), oracle) == Answer(oracle(Services[i], doi).text, false, Services[..i + 1])
  {
    var a := Chain(Services, doi, oracle);
    assert a.found.Some?;
    assert Services[..|a.asked|] == a.asked;
  }

  /** An exception in a service, after only falsy answers before it, leaves
      `fetch_abstract` with nothing returned, and the later services are
      not asked. */
  lemma FetchAbstractRaises(doi: string, oracle: Oracle, i: nat)
    requires doi != "" && i < |Services|
    requires oracle(Services[i], doi).Raises?
    requires forall j :: 0 <= j < i ==> Falsy(oracle(Services[j], doi))
    ensures FetchAbstract(Some(doi), oracle) == Answer(None, true, Services[..i + 1])
  {
    var a := Chain(Services, doi, oracle);
    assert a.raised;
    assert Services[..|a.asked|] == a.asked;
  }

  /** When every service comes back empty, nothing is returned and all three were asked. */
  lemma FetchAbstractNone(doi: string, oracle: Oracle)
    requires doi != ""
    requires forall s :: Falsy(oracle(s, doi))
    ensures FetchAbstract(Some(doi), oracle) == Answer(None, false, Services)
  {
  }

  /** Only the services asked matter: two oracles that agree on them give
      the same answer, whatever the services not asked would say. */
  lemma {:induction false} ChainAskedOnly(services: seq<Service>, doi: string, o1: Oracle, o2: Oracle)
    requires forall k :: 0 <= k < |Chain(services, doi, o1).asked| ==>
      o1(Chain(services, doi, o1).asked[k], doi) == o2(Chain(services, doi, o1).asked[k], doi)
    ensures Chain(services, doi, o1) == Chain(services, doi, o2)
    decreases |services|
  {
    if services != [] {
      var a := Chain(services, doi, o1);
      assert a.asked[0] == services[0];
      if Falsy(o1(services[0], doi)) {
        var rest := Chain(services[1..], doi, o1);
        assert a.asked == [services[0]] + rest.asked;
        forall k | 0 <= k < |rest.asked|
          ensures o1(rest.asked[k], doi) == o2(rest.asked[k], doi)
        {
          assert rest.asked[k] == a.asked[k + 1];
        }
        ChainAskedOnly(services[1..], doi, o1, o2);
      }
    }
  }

  lemma FetchAbstractAskedOnly(doi: Option<string>, o1: Oracle, o2: Oracle)
    requires forall k :: 0 <= k < |FetchAbstract(doi, o1).asked| ==>
      o1(FetchAbstract(doi, o1).asked[k], doi.value) == o2(FetchAbstract(doi, o1).asked[k], doi.value)
    ensures FetchAbstract(doi, o1) == FetchAbstract(doi, o2)
  {
    if doi.Some? && doi.value != "" {
      assert FetchAbstract(doi, o1) == Chain(Services, doi.value, o1);
      ChainAskedOnly(Services, doi.value, o1, o2);
    }
  }
}
