/**
 * `HTMLQueue` (src/Queue/HTMLQueue.php): the HTML-string services registered by class,
 * kept in ascending priority and applied in turn, optionally only those a filter accepts.
 */
module HtmlQueues {
  import opened Wrappers
  import opened ServiceQueue

  class HtmlQueue {
    /** `$services`, in iteration order; the class name is each entry's key. */
    var services: seq<Service>

    /** Keyed by class name and in ascending priority. */
    predicate Valid()
      reads this
    {
      WellFormed(services)
    }

    constructor ()
      ensures Valid() && services == []
    {
      services := [];
    }

    /**
     * `add`: store the service under its class name, replacing one of the same class,
     * then sort by priority. The class now maps to `service`; every other class keeps
     * what it mapped to.
     */
    method Add(service: Service)
      requires Valid()
      modifies this
      ensures Valid()
      ensures services == ServiceQueue.Add(old(services), service)
      ensures Names(services) == Names(old(services)) + {service.name}
      ensures Get(service.name) == Some(service)
      ensures forall name :: name != service.name ==> Get(name) == old(Get(name))
    {
      var before := services;
      AddWellFormed(before, service);
      services := ServiceQueue.Add(before, service);
      forall name ensures Lookup(services, name) == if name == service.name then Some(service) else Lookup(before, name) {
        AddLookup(before, service, name);
      }
    }

    /** `isEmpty`: no class is registered. */
    function IsEmpty(): (r: bool)
      reads this
      ensures r <==> Names(services) == {}
    {
      assert services != [] ==> services[0].name in Names(services);
      services == []
    }

    /** `get`: the service registered for the class, or none. */
    function Get(name: string): (r: Option<Service>)
      reads this
      ensures r.Some? ==> r.value in services && r.value.name == name
      ensures r.None? <==> name !in Names(services)
    {
      Lookup(services, name)
    }

    /**
     * `applyTo`: the services (those the filter accepts, when one is given) run in
     * stored order, each on the previous one's output.
     */
    method ApplyTo(html: string, filter: Option<Service -> bool>, run: (Service, string) -> string) returns (r: string)
      ensures filter.None? ==> r == Thread(services, run, html)
      ensures filter.Some? ==> r == Thread(Keep(services, filter.value), run, html)
      ensures services == [] ==> r == html
    {
      var selected := services;
      if filter.Some? {
        selected := Keep(services, filter.value);
      }
      r := html;
      var i := 0;
      while i < |selected|
        invariant 0 <= i <= |selected|
        invariant r == Thread(selected[..i], run, html)
      {
        assert selected[..i + 1][..i] == selected[..i];
        r := run(selected[i], r);
        i := i + 1;
      }
      assert selected[..i] == selected;
    }
  }
}
