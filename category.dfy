/**
 * Task category. Category.java is not part of this model: a category is
 * assumed to be a wrapper of its name whose `equals` and `hashCode` depend on
 * the name alone, so value equality of this datatype stands for `equals`.
 */
module Categories {

  datatype Category = Category(name: string)
}
