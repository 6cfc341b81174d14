/**
 The few types of the host editor library that the metadata hook touches.
 Only what the listeners inspect or produce is kept: a shape's type tag,
 and JSON objects whose values are numbers or strings.
 */
module Tldraw {

  /** A JSON leaf value as produced by the listeners of this project. */
  datatype JsonValue = JNum(n: int) | JStr(s: string)

  /** A JSON object: keys to values. */
  type JsonObject = map<string, JsonValue>

  /**
   A newly created shape as passed to `getInitialMetaForShape`. The
   listeners only read its `type` tag; `id` stands for the rest of the
   record, which is passed through untouched.
   */
  datatype Shape = Shape(id: string, shapeType: string)
}
