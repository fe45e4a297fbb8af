/**
 * Task priority. Priority.java is not part of this model: the three constants
 * are assumed from their uses (`Priority.LOW` is the default of a new task,
 * the sample data uses HIGH and MEDIUM).
 */
module Priorities {

  datatype Priority = Low | Medium | High
}
