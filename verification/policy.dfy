/** A reference to one of the three policy objects, called as the policy interface is. */
module Policies {
  import opened Types
  import opened LruPolicy
  import opened FifoPolicy
  import opened LfuPolicy
  import PolicySpec

  datatype PolicyRef = LruRef(lru: Lru) | FifoRef(fifo: Fifo) | LfuRef(lfu: Lfu) {

    function Root(): object {
      match this
      case LruRef(p) => p
      case FifoRef(p) => p
      case LfuRef(p) => p
    }

    ghost function Repr(): set<object>
      reads Root()
    {
      match this
      case LruRef(p) => p.Repr
      case FifoRef(p) => p.Repr
      case LfuRef(p) => p.Repr()
    }

    ghost predicate Valid()
      reads Root(), Repr()
    {
      && Root() in Repr()
      && match this
         case LruRef(p) => p.Valid()
         case FifoRef(p) => p.Valid()
         case LfuRef(p) => p.Valid()
    }

    ghost function State(): PolicySpec.Policy
      requires Valid()
      reads Root(), Repr()
    {
      match this
      case LruRef(p) => PolicySpec.Lru(p.capacity, p.Order())
      case FifoRef(p) => PolicySpec.Fifo(p.capacity, p.Order())
      case LfuRef(p) => PolicySpec.Lfu(p.capacity, p.Slots())
    }

    method OnGet(key: Key)
      requires Valid()
      modifies Repr()
      ensures Valid() && Repr() == old(Repr())
      ensures State() == PolicySpec.OnGet(old(State()), key)
    {
      match this
      case LruRef(p) => p.OnGet(key);
      case FifoRef(p) => p.OnGet(key);
      case LfuRef(p) => p.OnGet(key);
    }

    method OnSet(key: Key)
      requires Valid()
      modifies Repr()
      ensures Valid() && fresh(Repr() - old(Repr()))
      ensures State() == PolicySpec.OnSet(old(State()), key)
    {
      match this
      case LruRef(p) => p.OnSet(key);
      case FifoRef(p) => p.OnSet(key);
      case LfuRef(p) => p.OnSet(key);
    }

    method OnDelete(key: Key)
      requires Valid()
      modifies Repr()
      ensures Valid() && Repr() <= old(Repr())
      ensures State() == PolicySpec.OnDelete(old(State()), key)
    {
      match this
      case LruRef(p) => p.OnDelete(key);
      case FifoRef(p) => p.OnDelete(key);
      case LfuRef(p) => p.OnDelete(key);
    }

    method Evict() returns (victim: Option<Key>)
      requires Valid()
      modifies Repr()
      ensures Valid() && Repr() <= old(Repr())
      ensures State() == PolicySpec.Evict(old(State())).0
      ensures victim == PolicySpec.Evict(old(State())).1
    {
      match this
      case LruRef(p) => victim := p.Evict();
      case FifoRef(p) => victim := p.Evict();
      case LfuRef(p) => victim := p.Evict();
    }
  }
}
