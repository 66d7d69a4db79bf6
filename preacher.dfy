/** A preacher record: immutable after load. */
module Preachers {

  datatype Preacher = Preacher(name: string, graphicsSupport: string, dates: seq<int>)
}
