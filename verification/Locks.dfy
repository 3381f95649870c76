/** A reader/writer lock (sync.RWMutex) as a value: who holds it, and how. */
module Locks {
  import opened Options

  type Thread = nat

  datatype RWLock = RWLock(readers: set<Thread>, writer: Option<Thread>) {

    /** Many readers or one writer. */
    predicate Exclusive() { writer.Some? ==> readers == {} }

    predicate CanRead() { writer.None? }

    predicate CanWrite() { writer.None? && readers == {} }

    function RLock(t: Thread): (l: RWLock)
      requires CanRead() && Exclusive()
      ensures l.Exclusive()
    {
      this.(readers := readers + {t})
    }

    function RUnlock(t: Thread): RWLock { this.(readers := readers - {t}) }

    function Lock(t: Thread): (l: RWLock)
      requires CanWrite()
      ensures l.Exclusive()
    {
      this.(writer := Some(t))
    }

    function Unlock(): RWLock { this.(writer := None) }
  }

  const UNLOCKED := RWLock({}, None)
}
