/**
 * The payloads that flow between a container and its modules. Their TypeScript
 * declarations live in a dto file that is not part of this model; the core only
 * passes them through, so they are opaque records here.
 */
module Dto {

  /** Data handed forward to a module when it becomes the navigation target. */
  datatype Parcel = Parcel(fields: map<string, string>)

  /** Data a module hands back to the caller of `forward` when it exits. */
  datatype Result = Result(fields: map<string, string>)

  /** Why a module is asked to exit. The container only ever sends `Back`. */
  datatype ActionType = Back | Other(tag: string)
}
