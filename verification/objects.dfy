/** The records of the correlation memory that are shared by pointer. */
module EventObjects {
  import opened Options
  import opened Filters

  type RuleId = nat

  class Eventinfo {
    const attrs: Event
    const time: int               // lf->time.tv_sec
    const generatedRule: RuleId
    var matched: int
    var lastEvents: seq<string>   // empty when the pointer is NULL
    var node: EventNode?
    var sidNodeToDelete: OSListNode?
    var groupNodeToDelete: seq<OSListNode>

    constructor (attrs: Event, time: int, generatedRule: RuleId)
      ensures this.attrs == attrs && this.time == time && this.generatedRule == generatedRule
      ensures matched == 0 && lastEvents == [] && node == null
      ensures sidNodeToDelete == null && groupNodeToDelete == []
    {
      this.attrs, this.time, this.generatedRule := attrs, time, generatedRule;
      matched, lastEvents, node := 0, [], null;
      sidNodeToDelete, groupNodeToDelete := null, [];
    }
  }

  /** A node of the global event list. */
  class EventNode {
    var event: Eventinfo?
    var next: EventNode?   // towards older events
    var prev: EventNode?

    constructor ()
      ensures event == null && next == null && prev == null
    {
      event, next, prev := null, null, null;
    }
  }

  /** A node of an index list; its data never changes. */
  class OSListNode {
    const data: Eventinfo

    constructor (data: Eventinfo)
      ensures this.data == data
    {
      this.data := data;
    }
  }
}
