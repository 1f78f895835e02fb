/*
 * The Rust wrappers of crates/gpui/src/yoga/ffi.rs that touch both the
 * measure registry and the node store: `set_measure` registers the
 * callback before the C++ side ever sees its id.
 */
module YogaFfi {
  import opened YogaFfiTypes
  import YogaBridge

  /**
   * `set_measure`: take the next measure id, register the callback under
   * it and only then install the id on the node. The id is never the
   * clear sentinel 0. On a live node the previous context (if any) is
   * dropped and the node ends with exactly the new one; on a null or dead
   * handle the callback stays registered with no node to run it.
   */
  method SetMeasure(store: YogaBridge.NodeStore, node: Handle, callback: MeasureCallback) returns (id: MeasureId)
    requires store.Valid()
    modifies store`contexts, store`measured, store`faults, store.registry
    ensures store.Valid()
    ensures id == old(store.registry.nextMeasureId) && id != 0 && id !in old(store.registry.callbacks)
    ensures store.registry.nextMeasureId == id + 1
    ensures node in store.children && node !in old(store.contexts) ==>
      && store.contexts == old(store.contexts)[node := id]
      && store.registry.callbacks == old(store.registry.callbacks)[id := callback]
      && store.registry.drops == old(store.registry.drops)
    ensures node in store.children && node in old(store.contexts) ==>
      && store.contexts == old(store.contexts)[node := id]
      && store.registry.callbacks == old(store.registry.callbacks)[id := callback] - {old(store.contexts)[node]}
      && store.registry.drops == old(store.registry.drops) + [old(store.contexts)[node]]
    ensures node in store.children ==> store.faults == old(store.faults)
    ensures node !in store.children ==>
      && store.contexts == old(store.contexts)
      && store.registry.callbacks == old(store.registry.callbacks)[id := callback]
      && store.faults == old(store.faults) + (if node == NullHandle then [] else [node])
  {
    id := store.registry.Register(callback);
    store.SetMeasure(node, id);
  }
}
