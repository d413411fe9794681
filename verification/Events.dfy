/** The page events the runtime's state owners react to, as the ordered dispatcher hands them on. */
module Events {
  import opened Wrappers

  /** An inserted node as parsed from the event: `tag` is lower-cased and never empty. */
  datatype NodePayload = NodePayload(
    node: int, backend: int, tag: string, domId: string, classes: seq<string>, text: string, hasChildren: bool)

  datatype PageEvent =
    | ChildInserted(parent: Option<int>, payload: Option<NodePayload>)
    | ChildRemoved(parent: Option<int>, child: int, backend: Option<int>)
    | AttributeModified(node: Option<int>, name: string, value: string)
    | DocumentUpdated
    | FrameAttached(frame: string)
    | FrameNavigated(frame: string, isMain: bool)
    | FrameDetached(frame: string)
    | Unrelated

  /** True for the events that move the DOM version: any mutation and a main-frame navigation. */
  predicate MovesDom(e: PageEvent) {
    match e
    case ChildInserted(_, _) | ChildRemoved(_, _, _) | AttributeModified(_, _, _) | DocumentUpdated => true
    case FrameNavigated(_, isMain) => isMain
    case _ => false
  }

  /** The node whose children or attributes the event changes, if it says which. */
  function TouchedNode(e: PageEvent): Option<int> {
    match e
    case ChildInserted(parent, _) => parent
    case ChildRemoved(parent, _, _) => parent
    case AttributeModified(node, _, _) => node
    case _ => None
  }

  /** The frame whose own version the event moves; events without a frame id move none. */
  function MovedFrame(e: PageEvent): Option<string> {
    if (e.FrameAttached? || e.FrameNavigated? || e.FrameDetached?) && e.frame != "" then Some(e.frame) else None
  }
}
