/**
 * `DOMQueue` (src/Internal/Queue/DOMQueue.php): the DOM services registered by class,
 * kept in ascending priority and run in turn against one parsed document.
 */
module DomQueues {
  import opened Wrappers
  import opened ServiceQueue

  class DomQueue {
    /** `$services`, in iteration order; the class name is each entry's key. */
    var services: seq<Service>

    /** Keyed by class name and in ascending priority. */
    predicate Valid()
      reads this
    {
      WellFormed(services)
    }

    constructor ()
      ensures Valid() && services == []
    {
      services := [];
    }

    /**
     * `add`: store the service under its class name, replacing one of the same class,
     * then sort by priority. The class now maps to `service`; every other class keeps
     * what it mapped to.
     */
    method Add(service: Service)
      requires Valid()
      modifies this
      ensures Valid()
      ensures services == ServiceQueue.Add(old(services), service)
      ensures Names(services) == Names(old(services)) + {service.name}
      ensures Get(service.name) == Some(service)
      ensures forall name :: name != service.name ==> Get(name) == old(Get(name))
    {
      var before := services;
      AddWellFormed(before, service);
      services := ServiceQueue.Add(before, service);
      forall name ensures Lookup(services, name) == if name == service.name then Some(service) else Lookup(before, name) {
        AddLookup(before, service, name);
      }
    }

    /** `isEmpty`: no class is registered. */
    function IsEmpty(): (r: bool)
      reads this
      ensures r <==> Names(services) == {}
    {
      assert services != [] ==> services[0].name in Names(services);
      services == []
    }

    /** `get`: the service registered for the class, or none. */
    function Get(name: string): (r: Option<Service>)
      reads this
      ensures r.Some? ==> r.value in services && r.value.name == name
      ensures r.None? <==> name !in Names(services)
    {
      Lookup(services, name)
    }

    /** `runServices`: every service runs once against the document, in stored order. */
    method RunServices<D>(document: D, run: (Service, D) -> D) returns (doc: D)
      ensures doc == Thread(services, run, document)
    {
      doc := document;
      var i := 0;
      while i < |services|
        invariant 0 <= i <= |services|
        invariant doc == Thread(services[..i], run, document)
      {
        assert services[..i + 1][..i] == services[..i];
        doc := run(services[i], doc);
        i := i + 1;
      }
      assert services[..i] == services;
    }

    /**
     * `applyTo`: an empty queue gives back the HTML as it is; otherwise the document is
     * parsed, run through every service and its body serialised.
     */
    method ApplyTo<D>(html: string, parse: string -> D, extract: D -> string, run: (Service, D) -> D) returns (r: string)
      ensures services == [] ==> r == html
      ensures services != [] ==> r == extract(Thread(services, run, parse(html)))
    {
      if IsEmpty() {
        return html;
      }
      var document := RunServices(parse(html), run);
      r := extract(document);
    }
  }
}
